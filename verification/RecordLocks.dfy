/** POSIX record locks of one node: the list `node->locks` of fuse.c, its meaning as a map from
    (owner, offset) to a lock type, and the conversions between kernel, flock and list form. */
module RecordLocks {

  const OFFSET_MAX: int := 0x7fff_ffff_ffff_ffff

  datatype LockType = RdLck | WrLck | UnLck

  // An inclusive interval [start, end].
  datatype Lock = Lock(typ: LockType, start: int, end: int, pid: int, owner: int)

  predicate InRange(l: Lock) {
    0 <= l.start <= l.end <= OFFSET_MAX
  }

  predicate Covers(l: Lock, owner: int, x: int) {
    l.owner == owner && l.start <= x <= l.end
  }

  // -------------------------------------------------------------------------
  // Meaning

  /** The type `owner` holds at offset `x`; UnLck when it holds nothing there. */
  function TypeAt(ls: seq<Lock>, owner: int, x: int): LockType {
    if ls == [] then UnLck
    else if Covers(ls[0], owner, x) then ls[0].typ
    else TypeAt(ls[1..], owner, x)
  }

  /** What POSIX asks of a lock request: the requester holds the requested type on the range,
      and nothing else changes. */
  function Overlay(req: Lock, ls: seq<Lock>, owner: int, x: int): LockType {
    if Covers(req, owner, x) then req.typ else TypeAt(ls, owner, x)
  }

  /** The entries of one owner, in list order. */
  function OwnedBy(ls: seq<Lock>, owner: int): seq<Lock> {
    if ls == [] then []
    else (if ls[0].owner == owner then [ls[0]] else []) + OwnedBy(ls[1..], owner)
  }

  /** `a` lies wholly before `b`, with a gap when both have the same type. */
  predicate Before(a: Lock, b: Lock) {
    a.end < b.start && (a.typ == b.typ ==> a.end + 1 < b.start)
  }

  /** Per owner: in range, sorted, disjoint, coalesced, and without UnLck entries. */
  ghost predicate Canonical(ls: seq<Lock>) {
    && (forall i :: 0 <= i < |ls| ==> InRange(ls[i]) && ls[i].typ != UnLck)
    && (forall i, j :: 0 <= i < j < |ls| && ls[i].owner == ls[j].owner ==> Before(ls[i], ls[j]))
  }

  // -------------------------------------------------------------------------
  // Facts about TypeAt

  lemma {:induction false} TypeAtUncovered(ls: seq<Lock>, owner: int, x: int)
    requires forall k :: 0 <= k < |ls| ==> !Covers(ls[k], owner, x)
    ensures TypeAt(ls, owner, x) == UnLck
  {
    if ls == [] {
    } else {
      assert !Covers(ls[0], owner, x);
      assert forall k :: 0 <= k < |ls[1..]| ==> ls[1..][k] == ls[k + 1];
      TypeAtUncovered(ls[1..], owner, x);
    }
  }

  lemma {:induction false} TypeAtCovered(ls: seq<Lock>, k: int, owner: int, x: int)
    requires 0 <= k < |ls| && Covers(ls[k], owner, x)
    requires forall j :: 0 <= j < k ==> !Covers(ls[j], owner, x)
    ensures TypeAt(ls, owner, x) == ls[k].typ
  {
    if k == 0 {
    } else {
      assert !Covers(ls[0], owner, x);
      assert forall j :: 0 <= j < |ls[1..]| ==> ls[1..][j] == ls[j + 1];
      TypeAtCovered(ls[1..], k - 1, owner, x);
    }
  }

  /** In a canonical list any covering entry decides the type. */
  lemma CoveredInCanonical(ls: seq<Lock>, k: int, owner: int, x: int)
    requires Canonical(ls)
    requires 0 <= k < |ls| && Covers(ls[k], owner, x)
    ensures TypeAt(ls, owner, x) == ls[k].typ
  {
    forall j | 0 <= j < k ensures !Covers(ls[j], owner, x) {
      if ls[j].owner == ls[k].owner { assert Before(ls[j], ls[k]); }
    }
    TypeAtCovered(ls, k, owner, x);
  }

  lemma OwnedByFirst(l: Lock, rest: seq<Lock>, owner: int)
    ensures OwnedBy([l] + rest, owner) == (if l.owner == owner then [l] else []) + OwnedBy(rest, owner)
  {
    assert ([l] + rest)[1..] == rest;
  }

  lemma {:induction false} OwnedByConcat(a: seq<Lock>, b: seq<Lock>, owner: int)
    ensures OwnedBy(a + b, owner) == OwnedBy(a, owner) + OwnedBy(b, owner)
  {
    if a == [] {
      assert a + b == b;
    } else {
      var l, rest := a[0], a[1..];
      assert a == [l] + rest && a + b == [l] + (rest + b);
      OwnedByFirst(l, rest, owner);
      OwnedByFirst(l, rest + b, owner);
      OwnedByConcat(rest, b, owner);
    }
  }

  // -------------------------------------------------------------------------
  // Edits of a canonical list

  function Splice(ls: seq<Lock>, i: int, mid: seq<Lock>, j: int): seq<Lock>
    requires 0 <= i <= j <= |ls|
  {
    ls[..i] + mid + ls[j..]
  }

  /** Replacing ls[i..j] by `mid` changes the type only at offsets covered by the old or the new
      stretch. */
  lemma SpliceElsewhere(ls: seq<Lock>, i: int, mid: seq<Lock>, j: int, owner: int, x: int)
    requires 0 <= i <= j <= |ls| && Canonical(ls) && Canonical(Splice(ls, i, mid, j))
    requires forall k :: i <= k < j ==> !Covers(ls[k], owner, x)
    requires forall k :: 0 <= k < |mid| ==> !Covers(mid[k], owner, x)
    ensures TypeAt(Splice(ls, i, mid, j), owner, x) == TypeAt(ls, owner, x)
  {
    var r := Splice(ls, i, mid, j);
    if k :| 0 <= k < |ls| && Covers(ls[k], owner, x) {
      var k' := if k < i then k else k - j + i + |mid|;
      assert r[k'] == ls[k];
      CoveredInCanonical(ls, k, owner, x);
      CoveredInCanonical(r, k', owner, x);
    } else {
      forall k | 0 <= k < |r| ensures !Covers(r[k], owner, x) {
        assert r[k] == if k < i then ls[k] else if k < i + |mid| then mid[k - i] else ls[k - i - |mid| + j];
      }
      TypeAtUncovered(r, owner, x);
      TypeAtUncovered(ls, owner, x);
    }
  }

  /** An edit that only touches entries of `who` leaves every other owner's entries as they were. */
  lemma SpliceOthers(ls: seq<Lock>, i: int, mid: seq<Lock>, j: int, who: int, owner: int)
    requires 0 <= i <= j <= |ls| && owner != who
    requires forall k :: i <= k < j ==> ls[k].owner == who
    requires forall k :: 0 <= k < |mid| ==> mid[k].owner == who
    ensures OwnedBy(Splice(ls, i, mid, j), owner) == OwnedBy(ls, owner)
  {
    OwnedByConcat(ls[..i] + mid, ls[j..], owner);
    OwnedByConcat(ls[..i], mid, owner);
    OwnedByConcat(ls[..i] + ls[i..j], ls[j..], owner);
    OwnedByConcat(ls[..i], ls[i..j], owner);
    assert ls == ls[..i] + ls[i..j] + ls[j..];
    NoneOwned(mid, owner);
    NoneOwned(ls[i..j], owner);
  }

  lemma {:induction false} NoneOwned(ls: seq<Lock>, owner: int)
    requires forall k :: 0 <= k < |ls| ==> ls[k].owner != owner
    ensures OwnedBy(ls, owner) == []
  {
    if ls != [] { NoneOwned(ls[1..], owner); }
  }

  // -------------------------------------------------------------------------
  // The list object

  predicate FreesEverything(req: Lock) {
    req.typ == UnLck && req.start == 0 && req.end == OFFSET_MAX
  }

  /** The state of the walk: entries before `i` lie before the pending request, and laying the
      request (grown by what it absorbed) over the list still means what it meant at the start. */
  ghost predicate Walked(was: seq<Lock>, req: Lock, ls: seq<Lock>, i: int, lock: Lock)
    requires 0 <= i <= |ls|
  {
    && Canonical(ls)
    && InRange(lock) && lock.typ == req.typ && lock.owner == req.owner
    && (req.typ == UnLck ==> lock == req)
    && (forall k :: 0 <= k < i && ls[k].owner == lock.owner ==> Before(ls[k], lock))
    && (forall o, x :: Overlay(lock, ls, o, x) == Overlay(req, was, o, x))
    && (forall o :: o != req.owner ==> OwnedBy(ls, o) == OwnedBy(was, o))
  }

  class LockList {
    var locks: seq<Lock>

    constructor ()
      ensures locks == [] && Canonical(locks)
    {
      locks := [];
    }

    /** locks_insert. `alloc1` and `alloc2` say whether the two spare nodes can be allocated; the
        request that unlocks everything allocates none. */
    method Insert(req: Lock, alloc1: bool, alloc2: bool) returns (ok: bool)
      requires Canonical(locks) && InRange(req)
      modifies this
      ensures ok <==> FreesEverything(req) || (alloc1 && alloc2)
      ensures !ok ==> locks == old(locks)
      ensures Canonical(locks)
      ensures ok ==> forall o, x :: TypeAt(locks, o, x) == Overlay(req, old(locks), o, x)
      ensures forall o :: o != req.owner ==> OwnedBy(locks, o) == OwnedBy(old(locks), o)
    {
      var newl1, newl2 := false, false;
      if req.typ != UnLck || req.start != 0 || req.end != OFFSET_MAX {
        if !alloc1 || !alloc2 {
          return false;
        }
        newl1, newl2 := true, true;
      }
      ghost var was := locks;
      var lock, i := req, 0;
      ghost var hasSplit := false;
      while i < |locks|
        invariant 0 <= i <= |locks| && Walked(was, req, locks, i, lock)
        invariant newl1 <==> !FreesEverything(req)
        invariant newl2 <==> newl1 && !hasSplit
        invariant hasSplit ==> i < |locks| && locks[i].owner == lock.owner && locks[i].typ != lock.typ
                               && lock.end < locks[i].start
        decreases !hasSplit, |locks| - i
      {
        var l := locks[i];
        if l.owner != lock.owner {
          i := i + 1;
        } else if lock.typ == l.typ {
          if l.end < lock.start - 1 {
            i := i + 1;
          } else if lock.end < l.start - 1 {
            break;
          } else if l.start <= lock.start && lock.end <= l.end {
            AlreadyHeld(was, req, locks, i, lock);
            return true;
          } else {
            ghost var prevLock := lock;
            if l.start < lock.start {
              lock := lock.(start := l.start);
            }
            if lock.end < l.end {
              lock := lock.(end := l.end);
            }
            MergeStep(was, req, locks, i, prevLock, lock);
            locks := locks[..i] + locks[i + 1..];
          }
        } else if l.end < lock.start {
          i := i + 1;
        } else if lock.end < l.start {
          break;
        } else {
          TrimStep(was, req, locks, i, lock);
          if lock.start <= l.start && l.end <= lock.end {
            locks := locks[..i] + locks[i + 1..];
          } else if l.end <= lock.end {
            locks := locks[i := l.(end := lock.start - 1)];
            i := i + 1;
          } else if lock.start <= l.start {
            locks := locks[i := l.(start := lock.end + 1)];
            break;
          } else {
            assert newl2;  // the spare node is still there
            locks := locks[..i] + [l.(end := lock.start - 1)] + [l.(start := lock.end + 1)] + locks[i + 1..];
            newl2 := false;
            hasSplit := true;
            i := i + 1;
          }
        }
      }
      if lock.typ != UnLck {
        assert newl1;
        InsertStep(was, req, locks, i, lock);
        locks := locks[..i] + [lock] + locks[i..];
      } else {
        NothingLeft(was, req, locks, i, lock);
      }
      return true;
    }

    /** locks_conflict: the first entry of another owner that rules the probe out. */
    method Conflict(probe: Lock) returns (found: bool, l: Lock)
      requires Canonical(locks) && InRange(probe)
      ensures found <==> exists o, x :: o != probe.owner && probe.start <= x <= probe.end
                                     && Incompatible(TypeAt(locks, o, x), probe.typ)
      ensures found ==> l in locks && l.owner != probe.owner
                        && forall x :: probe.start <= x <= probe.end && l.start <= x <= l.end
                                       ==> Incompatible(TypeAt(locks, l.owner, x), probe.typ)
      ensures found ==> l.start <= probe.end && probe.start <= l.end
      ensures !found ==> l == probe
    {
      for k := 0 to |locks|
        invariant forall j :: 0 <= j < k ==> !Conflicts(locks[j], probe)
      {
        if Conflicts(locks[k], probe) {
          ConflictWitness(locks, k, probe);
          return true, locks[k];
        }
      }
      NoConflict(locks, probe);
      return false, probe;
    }

    /** The library's half of a set-lock request, from the range the kernel sent. */
    method SetLk(fl: KernelLock, owner: int, alloc1: bool, alloc2: bool) returns (ok: bool)
      requires Canonical(locks) && 0 <= fl.start <= fl.end <= OFFSET_MAX
      modifies this
      ensures Canonical(locks)
      ensures ok <==> (fl.typ == UnLck && fl.start == 0 && fl.end == OFFSET_MAX) || (alloc1 && alloc2)
      ensures !ok ==> locks == old(locks)
      ensures ok ==> forall o, x ::
        TypeAt(locks, o, x) == if o == owner && fl.start <= x <= fl.end then fl.typ else TypeAt(old(locks), o, x)
    {
      var lock := FlockToLock(ConvertKernelLock(fl), owner);
      ok := Insert(lock, alloc1, alloc2);
    }

    /** The library's half of a get-lock request: what is reported back is a lock that really is in
        the way, or nothing is in the way. */
    method GetLk(fl: KernelLock, owner: int) returns (reply: KernelLock, conflict: bool)
      requires Canonical(locks) && 0 <= fl.start <= fl.end <= OFFSET_MAX
      ensures conflict <==> exists o, x :: o != owner && fl.start <= x <= fl.end
                                        && Incompatible(TypeAt(locks, o, x), fl.typ)
      ensures conflict ==> reply.typ != UnLck && exists o :: o != owner && HoldsExactly(locks, o, reply)
      ensures conflict ==> reply.start <= fl.end && fl.start <= reply.end
      ensures conflict ==> Incompatible(reply.typ, fl.typ)
      ensures conflict ==> exists l :: l in locks && l.owner != owner
                                       && reply == KernelLock(l.typ, l.start, l.end, l.pid)
      ensures !conflict ==> reply == fl
    {
      var lock := FlockToLock(ConvertKernelLock(fl), owner);
      assert lock.start == fl.start && lock.end == fl.end;
      var l;
      conflict, l := Conflict(lock);
      reply := fl;
      if conflict {
        reply := ReplyLock(LockToFlock(l));
        var k :| 0 <= k < |locks| && locks[k] == l;
        assert reply.start == l.start && reply.end == l.end && reply.typ == l.typ;
        forall x | reply.start <= x <= reply.end ensures TypeAt(locks, l.owner, x) == reply.typ {
          CoveredInCanonical(locks, k, l.owner, x);
        }
        WholeRange(locks, k);
        ghost var x := if l.start < lock.start then lock.start else l.start;
        assert Incompatible(TypeAt(locks, l.owner, x), lock.typ);
        assert HoldsExactly(locks, l.owner, reply);
      }
    }

    /** What close() does: an all-zero flock of type F_UNLCK. It cannot fail for lack of memory. */
    method FlushUnlock(owner: int)
      requires Canonical(locks)
      modifies this
      ensures Canonical(locks)
      ensures forall o, x :: TypeAt(locks, o, x) == if o == owner then UnLck else TypeAt(old(locks), o, x)
      ensures OwnedBy(locks, owner) == []
      ensures forall o :: o != owner ==> OwnedBy(locks, o) == OwnedBy(old(locks), o)
    {
      var lock := FlockToLock(Flock(UnLck, 0, 0, 0), owner);
      var ok := Insert(lock, false, false);
      forall x ensures TypeAt(locks, owner, x) == UnLck {
        OutsideRange(old(locks), owner, x);
      }
      NothingOwned(locks, owner);
    }
  }

  // -------------------------------------------------------------------------
  // Conflicts

  predicate Incompatible(held: LockType, want: LockType) {
    held != UnLck && (held == WrLck || want == WrLck)
  }

  predicate Conflicts(l: Lock, probe: Lock) {
    && l.owner != probe.owner
    && probe.start <= l.end && l.start <= probe.end
    && (l.typ == WrLck || probe.typ == WrLck)
  }

  /** `owner` holds the reported type on all of the reported range, and not right before or behind it. */
  ghost predicate HoldsExactly(ls: seq<Lock>, owner: int, r: KernelLock) {
    && (forall x :: r.start <= x <= r.end ==> TypeAt(ls, owner, x) == r.typ)
    && TypeAt(ls, owner, r.start - 1) != r.typ && TypeAt(ls, owner, r.end + 1) != r.typ
  }

  /** An entry is all that its owner holds of its type around there. */
  lemma WholeRange(ls: seq<Lock>, k: int)
    requires Canonical(ls) && 0 <= k < |ls|
    ensures var l := ls[k];
      TypeAt(ls, l.owner, l.start - 1) != l.typ && TypeAt(ls, l.owner, l.end + 1) != l.typ
  {
    var l := ls[k];
    forall x | x == l.start - 1 || x == l.end + 1 ensures TypeAt(ls, l.owner, x) != l.typ {
      if m :| 0 <= m < |ls| && Covers(ls[m], l.owner, x) {
        CoveredInCanonical(ls, m, l.owner, x);
        assert m < k ==> Before(ls[m], l);
        assert k < m ==> Before(l, ls[m]);
      } else {
        TypeAtUncovered(ls, l.owner, x);
      }
    }
  }

  lemma ConflictWitness(ls: seq<Lock>, k: int, probe: Lock)
    requires Canonical(ls) && InRange(probe) && 0 <= k < |ls| && Conflicts(ls[k], probe)
    ensures forall x :: probe.start <= x <= probe.end && ls[k].start <= x <= ls[k].end
                        ==> Incompatible(TypeAt(ls, ls[k].owner, x), probe.typ)
    ensures exists o, x :: o != probe.owner && probe.start <= x <= probe.end
                        && Incompatible(TypeAt(ls, o, x), probe.typ)
  {
    var l := ls[k];
    forall x | probe.start <= x <= probe.end && l.start <= x <= l.end
      ensures Incompatible(TypeAt(ls, l.owner, x), probe.typ)
    {
      CoveredInCanonical(ls, k, l.owner, x);
    }
    var x := if l.start < probe.start then probe.start else l.start;
    assert Incompatible(TypeAt(ls, l.owner, x), probe.typ);
  }

  lemma NoConflict(ls: seq<Lock>, probe: Lock)
    requires Canonical(ls) && forall j :: 0 <= j < |ls| ==> !Conflicts(ls[j], probe)
    ensures forall o, x :: o != probe.owner && probe.start <= x <= probe.end
                        ==> !Incompatible(TypeAt(ls, o, x), probe.typ)
  {
    forall o, x | o != probe.owner && probe.start <= x <= probe.end
      ensures !Incompatible(TypeAt(ls, o, x), probe.typ)
    {
      if k :| 0 <= k < |ls| && Covers(ls[k], o, x) {
        CoveredInCanonical(ls, k, o, x);
        assert !Conflicts(ls[k], probe);
      } else {
        TypeAtUncovered(ls, o, x);
      }
    }
  }

  lemma OutsideRange(ls: seq<Lock>, owner: int, x: int)
    requires Canonical(ls)
    ensures !(0 <= x <= OFFSET_MAX) ==> TypeAt(ls, owner, x) == UnLck
  {
    if !(0 <= x <= OFFSET_MAX) { TypeAtUncovered(ls, owner, x); }
  }

  lemma NothingOwned(ls: seq<Lock>, owner: int)
    requires Canonical(ls) && forall x :: TypeAt(ls, owner, x) == UnLck
    ensures OwnedBy(ls, owner) == []
  {
    forall k | 0 <= k < |ls| ensures ls[k].owner != owner {
      if ls[k].owner == owner { CoveredInCanonical(ls, k, owner, ls[k].start); }
    }
    NoneOwned(ls, owner);
  }

  // -------------------------------------------------------------------------
  // Kernel, flock and list form of a range

  // struct fuse_file_lock: an inclusive range.
  datatype KernelLock = KernelLock(typ: LockType, start: int, end: int, pid: int)

  // struct flock with l_whence = SEEK_SET: length 0 means "to the end".
  datatype Flock = Flock(typ: LockType, start: int, len: int, pid: int)

  function ConvertKernelLock(fl: KernelLock): Flock {
    Flock(fl.typ, fl.start, if fl.end == OFFSET_MAX then 0 else fl.end - fl.start + 1, fl.pid)
  }

  function FlockToLock(f: Flock, owner: int): Lock {
    Lock(f.typ, f.start, if f.len != 0 then f.start + f.len - 1 else OFFSET_MAX, f.pid, owner)
  }

  function LockToFlock(l: Lock): Flock {
    Flock(l.typ, l.start, if l.end == OFFSET_MAX then 0 else l.end - l.start + 1, l.pid)
  }

  function ReplyLock(f: Flock): KernelLock {
    if f.typ == UnLck then KernelLock(UnLck, 0, 0, f.pid)
    else KernelLock(f.typ, f.start, if f.len == 0 then OFFSET_MAX else f.start + f.len - 1, f.pid)
  }

  // -------------------------------------------------------------------------
  // The canonical form of a meaning is unique

  /** The entries of `owner`, without the process ids. */
  function Shape(ls: seq<Lock>): seq<(LockType, int, int)> {
    seq(|ls|, i requires 0 <= i < |ls| => (ls[i].typ, ls[i].start, ls[i].end))
  }

  /** Two canonical lists that mean the same for an owner hold the same intervals for it, in the
      same order: the list is determined by the POSIX state it stands for. */
  lemma CanonicalFormUnique(a: seq<Lock>, b: seq<Lock>, owner: int)
    requires Canonical(a) && Canonical(b)
    requires forall x :: TypeAt(a, owner, x) == TypeAt(b, owner, x)
    ensures Shape(OwnedBy(a, owner)) == Shape(OwnedBy(b, owner))
  {
    OwnedByCanonical(a, owner);
    OwnedByCanonical(b, owner);
    var p, q := OwnedBy(a, owner), OwnedBy(b, owner);
    forall x ensures TypeAt(p, owner, x) == TypeAt(q, owner, x) {
      assert TypeAt(a, owner, x) == TypeAt(b, owner, x);
    }
    SameShape(p, q, owner);
  }

  lemma OwnedByCanonical(ls: seq<Lock>, owner: int)
    requires Canonical(ls)
    ensures Canonical(OwnedBy(ls, owner))
    ensures forall k :: 0 <= k < |OwnedBy(ls, owner)| ==> OwnedBy(ls, owner)[k].owner == owner
    ensures forall x :: TypeAt(OwnedBy(ls, owner), owner, x) == TypeAt(ls, owner, x)
  {
    OwnedByOrdered(ls, owner);
    forall x ensures TypeAt(OwnedBy(ls, owner), owner, x) == TypeAt(ls, owner, x) {
      OwnedBySameType(ls, owner, x);
    }
  }

  lemma {:induction false} OwnedByOrdered(ls: seq<Lock>, owner: int)
    requires Canonical(ls)
    ensures Canonical(OwnedBy(ls, owner))
    ensures forall k :: 0 <= k < |OwnedBy(ls, owner)| ==> OwnedBy(ls, owner)[k].owner == owner
    ensures forall k :: 0 <= k < |OwnedBy(ls, owner)| ==> OwnedBy(ls, owner)[k] in ls
  {
    if ls == [] {
    } else {
      var l, tail := ls[0], ls[1..];
      OwnedByOrdered(tail, owner);
      assert ls == [l] + tail;
      OwnedByFirst(l, tail, owner);
      OwnedByMore(l, tail, OwnedBy(tail, owner), owner);
    }
  }

  lemma OwnedByMore(l: Lock, tail: seq<Lock>, rest: seq<Lock>, owner: int)
    requires Canonical([l] + tail) && Canonical(rest)
    requires forall k :: 0 <= k < |rest| ==> rest[k].owner == owner && rest[k] in tail
    ensures var r := (if l.owner == owner then [l] else []) + rest;
      Canonical(r) && forall k :: 0 <= k < |r| ==> r[k].owner == owner && r[k] in [l] + tail
  {
    var ls := [l] + tail;
    forall k | 0 <= k < |rest| ensures rest[k] in ls && (l.owner == owner ==> Before(l, rest[k])) {
      var j :| 0 <= j < |tail| && tail[j] == rest[k];
      assert ls[j + 1] == rest[k] && ls[0] == l;
    }
    assert ls[0] == l;
  }

  lemma {:induction false} OwnedBySameType(ls: seq<Lock>, owner: int, x: int)
    ensures TypeAt(OwnedBy(ls, owner), owner, x) == TypeAt(ls, owner, x)
  {
    if ls == [] {
    } else {
      OwnedBySameType(ls[1..], owner, x);
      var rest := OwnedBy(ls[1..], owner);
      if ls[0].owner == owner {
        assert OwnedBy(ls, owner) == [ls[0]] + rest;
        assert ([ls[0]] + rest)[1..] == rest;
      } else {
        assert OwnedBy(ls, owner) == rest;
      }
    }
  }

  lemma FirstStartsEarliest(p: seq<Lock>, q: seq<Lock>, owner: int)
    requires Canonical(p) && Canonical(q) && p != []
    requires forall k :: 0 <= k < |p| ==> p[k].owner == owner
    requires forall k :: 0 <= k < |q| ==> q[k].owner == owner
    requires forall x :: TypeAt(p, owner, x) == TypeAt(q, owner, x)
    ensures q != [] && q[0].start <= p[0].start
  {
    var x := p[0].start;
    CoveredInCanonical(p, 0, owner, x);
    if k :| 0 <= k < |q| && Covers(q[k], owner, x) {
      if k > 0 { assert Before(q[0], q[k]); }
    } else {
      TypeAtUncovered(q, owner, x);
    }
  }

  lemma FirstEndsLatest(p: seq<Lock>, q: seq<Lock>, owner: int)
    requires Canonical(p) && Canonical(q) && p != [] && q != []
    requires forall k :: 0 <= k < |p| ==> p[k].owner == owner
    requires q[0].owner == owner && q[0].start == p[0].start && q[0].typ == p[0].typ
    requires forall x :: TypeAt(p, owner, x) == TypeAt(q, owner, x)
    ensures q[0].end <= p[0].end
  {
    if p[0].end < q[0].end {
      var x := p[0].end + 1;
      CoveredInCanonical(q, 0, owner, x);
      if k :| 0 <= k < |p| && Covers(p[k], owner, x) {
        CoveredInCanonical(p, k, owner, x);
        assert false;
      } else {
        TypeAtUncovered(p, owner, x);
      }
    }
  }

  lemma {:induction false} SameShape(p: seq<Lock>, q: seq<Lock>, owner: int)
    requires Canonical(p) && Canonical(q)
    requires forall k :: 0 <= k < |p| ==> p[k].owner == owner
    requires forall k :: 0 <= k < |q| ==> q[k].owner == owner
    requires forall x :: TypeAt(p, owner, x) == TypeAt(q, owner, x)
    ensures Shape(p) == Shape(q)
  {
    if p == [] && q == [] {
    } else {
      if p != [] { FirstStartsEarliest(p, q, owner); }
      if q != [] { FirstStartsEarliest(q, p, owner); }
      CoveredInCanonical(p, 0, owner, p[0].start);
      CoveredInCanonical(q, 0, owner, q[0].start);
      FirstEndsLatest(p, q, owner);
      FirstEndsLatest(q, p, owner);
      forall x ensures TypeAt(p[1..], owner, x) == TypeAt(q[1..], owner, x) {
        assert TypeAt(p, owner, x) == TypeAt(q, owner, x);
        if Covers(p[0], owner, x) {
          TailUncovered(p, owner, x);
          TailUncovered(q, owner, x);
        }
      }
      SameShape(p[1..], q[1..], owner);
      assert Shape(p) == [Shape(p)[0]] + Shape(p[1..]);
      assert Shape(q) == [Shape(q)[0]] + Shape(q[1..]);
    }
  }

  lemma TailUncovered(p: seq<Lock>, owner: int, x: int)
    requires Canonical(p) && p != [] && Covers(p[0], owner, x)
    ensures TypeAt(p[1..], owner, x) == UnLck
  {
    forall k | 0 <= k < |p[1..]| ensures !Covers(p[1..][k], owner, x) {
      if p[k + 1].owner == owner { assert Before(p[0], p[k + 1]); }
    }
    TypeAtUncovered(p[1..], owner, x);
  }

  // -------------------------------------------------------------------------
  // One lemma per way the loop edits the list

  lemma AlreadyHeld(was: seq<Lock>, req: Lock, ls: seq<Lock>, i: int, lock: Lock)
    requires 0 <= i < |ls| && Walked(was, req, ls, i, lock)
    requires ls[i].owner == lock.owner && ls[i].typ == lock.typ
    requires ls[i].start <= lock.start && lock.end <= ls[i].end
    ensures forall o, x :: TypeAt(ls, o, x) == Overlay(req, was, o, x)
  {
    forall o, x ensures TypeAt(ls, o, x) == Overlay(lock, ls, o, x) {
      if Covers(lock, o, x) { CoveredInCanonical(ls, i, o, x); }
    }
  }

  lemma MergeStep(was: seq<Lock>, req: Lock, ls: seq<Lock>, i: int, lock: Lock, hull: Lock)
    requires 0 <= i < |ls| && Walked(was, req, ls, i, lock)
    requires ls[i].owner == lock.owner && ls[i].typ == lock.typ
    requires lock.start - 1 <= ls[i].end && ls[i].start - 1 <= lock.end
    requires hull == lock.(start := if ls[i].start < lock.start then ls[i].start else lock.start,
                           end := if lock.end < ls[i].end then ls[i].end else lock.end)
    ensures Walked(was, req, ls[..i] + ls[i + 1..], i, hull)
  {
    MergeEdit(ls, i, lock, hull);
    assert ls[..i] + ls[i + 1..] == Splice(ls, i, [], i + 1);
  }

  /** The four ways of cutting an entry of another type, and where the walk goes on. */
  lemma TrimStep(was: seq<Lock>, req: Lock, ls: seq<Lock>, i: int, lock: Lock)
    requires 0 <= i < |ls| && Walked(was, req, ls, i, lock)
    requires ls[i].owner == lock.owner && ls[i].typ != lock.typ
    requires lock.start <= ls[i].end && ls[i].start <= lock.end
    ensures var l := ls[i]; var left, right := l.(end := lock.start - 1), l.(start := lock.end + 1);
      if lock.start <= l.start && l.end <= lock.end then
        Walked(was, req, ls[..i] + ls[i + 1..], i, lock)
      else if l.end <= lock.end then
        Walked(was, req, ls[i := left], i + 1, lock)
      else if lock.start <= l.start then
        Walked(was, req, ls[i := right], i, lock)
      else
        Walked(was, req, ls[..i] + [left] + [right] + ls[i + 1..], i + 1, lock)
  {
    var l := ls[i];
    var left, right := l.(end := lock.start - 1), l.(start := lock.end + 1);
    if lock.start <= l.start && l.end <= lock.end {
      TrimEdit(ls, i, lock, []);
      assert ls[..i] + ls[i + 1..] == Splice(ls, i, [], i + 1);
    } else if l.end <= lock.end {
      TrimEdit(ls, i, lock, [left]);
      assert ls[i := left] == Splice(ls, i, [left], i + 1);
    } else if lock.start <= l.start {
      TrimEdit(ls, i, lock, [right]);
      assert ls[i := right] == Splice(ls, i, [right], i + 1);
    } else {
      TrimEdit(ls, i, lock, [left, right]);
      assert ls[..i] + [left] + [right] + ls[i + 1..] == Splice(ls, i, [left, right], i + 1);
    }
  }

  /** Where the walk stops, every later entry of the owner lies after the request. */
  ghost predicate Stopped(ls: seq<Lock>, i: int, lock: Lock)
    requires 0 <= i <= |ls|
  {
    i < |ls| ==> ls[i].owner == lock.owner && Before(lock, ls[i])
  }

  lemma InsertStep(was: seq<Lock>, req: Lock, ls: seq<Lock>, i: int, lock: Lock)
    requires 0 <= i <= |ls| && Walked(was, req, ls, i, lock) && Stopped(ls, i, lock) && lock.typ != UnLck
    ensures var r := ls[..i] + [lock] + ls[i..];
      && Canonical(r)
      && (forall o, x :: TypeAt(r, o, x) == Overlay(req, was, o, x))
      && (forall o :: o != req.owner ==> OwnedBy(r, o) == OwnedBy(was, o))
  {
    assert ls[..i] + [lock] + ls[i..] == Splice(ls, i, [lock], i);
    InsertEdit(ls, i, lock);
  }

  lemma NothingLeft(was: seq<Lock>, req: Lock, ls: seq<Lock>, i: int, lock: Lock)
    requires 0 <= i <= |ls| && Walked(was, req, ls, i, lock) && Stopped(ls, i, lock) && lock.typ == UnLck
    ensures forall o, x :: TypeAt(ls, o, x) == Overlay(req, was, o, x)
  {
    forall o, x ensures TypeAt(ls, o, x) == Overlay(lock, ls, o, x) {
      if Covers(lock, o, x) { TypeAtUncovered(ls, o, x); }
    }
  }

  /** Absorbing an entry of the same type that touches the request. */
  lemma MergeEdit(ls: seq<Lock>, i: int, lock: Lock, hull: Lock)
    requires Canonical(ls) && 0 <= i < |ls| && InRange(lock)
    requires ls[i].owner == lock.owner && ls[i].typ == lock.typ
    requires lock.start - 1 <= ls[i].end && ls[i].start - 1 <= lock.end
    requires hull == lock.(start := if ls[i].start < lock.start then ls[i].start else lock.start,
                           end := if lock.end < ls[i].end then ls[i].end else lock.end)
    requires forall k :: 0 <= k < i && ls[k].owner == lock.owner ==> Before(ls[k], lock)
    ensures var r := Splice(ls, i, [], i + 1);
      && Canonical(r)
      && (forall k :: 0 <= k < i && r[k].owner == lock.owner ==> Before(r[k], hull))
      && (forall o, x :: Overlay(hull, r, o, x) == Overlay(lock, ls, o, x))
      && (forall o :: o != lock.owner ==> OwnedBy(r, o) == OwnedBy(ls, o))
  {
    var r := Splice(ls, i, [], i + 1);
    CanonicalWithout(ls, i);
    forall k | 0 <= k < i && r[k].owner == lock.owner ensures Before(r[k], hull) {
      assert r[k] == ls[k] && Before(ls[k], ls[i]);
    }
    forall o, x ensures Overlay(hull, r, o, x) == Overlay(lock, ls, o, x) {
      if Covers(ls[i], o, x) {
        CoveredInCanonical(ls, i, o, x);
      } else {
        SpliceElsewhere(ls, i, [], i + 1, o, x);
      }
    }
    forall o | o != lock.owner ensures OwnedBy(r, o) == OwnedBy(ls, o) {
      SpliceOthers(ls, i, [], i + 1, lock.owner, o);
    }
  }

  lemma CanonicalWithout(ls: seq<Lock>, i: int)
    requires Canonical(ls) && 0 <= i < |ls|
    ensures Canonical(Splice(ls, i, [], i + 1))
  {
    var r := Splice(ls, i, [], i + 1);
    assert forall k :: 0 <= k < |r| ==> r[k] == ls[if k < i then k else k + 1];
  }

  /** Cutting the request's range out of an entry of another type; `mid` is what is left of it. */
  lemma TrimEdit(ls: seq<Lock>, i: int, lock: Lock, mid: seq<Lock>)
    requires Canonical(ls) && 0 <= i < |ls| && InRange(lock)
    requires ls[i].owner == lock.owner && ls[i].typ != lock.typ
    requires lock.start <= ls[i].end && ls[i].start <= lock.end
    requires mid == (if ls[i].start < lock.start then [ls[i].(end := lock.start - 1)] else [])
                  + (if lock.end < ls[i].end then [ls[i].(start := lock.end + 1)] else [])
    ensures var r := Splice(ls, i, mid, i + 1);
      && Canonical(r)
      && (forall o, x :: Overlay(lock, r, o, x) == Overlay(lock, ls, o, x))
      && (forall o :: o != lock.owner ==> OwnedBy(r, o) == OwnedBy(ls, o))
  {
    var r := Splice(ls, i, mid, i + 1);
    TrimCanonical(ls, i, lock, mid);
    forall o, x ensures Overlay(lock, r, o, x) == Overlay(lock, ls, o, x) {
      if Covers(lock, o, x) {
      } else if Covers(ls[i], o, x) {
        CoveredInCanonical(ls, i, o, x);
        var k := if x < lock.start then i else i + |mid| - 1;
        assert r[k] == mid[k - i];
        CoveredInCanonical(r, k, o, x);
      } else {
        SpliceElsewhere(ls, i, mid, i + 1, o, x);
      }
    }
    forall o | o != lock.owner ensures OwnedBy(r, o) == OwnedBy(ls, o) {
      SpliceOthers(ls, i, mid, i + 1, lock.owner, o);
    }
  }

  lemma TrimCanonical(ls: seq<Lock>, i: int, lock: Lock, mid: seq<Lock>)
    requires Canonical(ls) && 0 <= i < |ls| && InRange(lock)
    requires ls[i].owner == lock.owner && ls[i].typ != lock.typ
    requires lock.start <= ls[i].end && ls[i].start <= lock.end
    requires mid == (if ls[i].start < lock.start then [ls[i].(end := lock.start - 1)] else [])
                  + (if lock.end < ls[i].end then [ls[i].(start := lock.end + 1)] else [])
    ensures Canonical(Splice(ls, i, mid, i + 1))
  {
    var r := Splice(ls, i, mid, i + 1);
    forall k | 0 <= k < |r|
      ensures r[k] == if k < i then ls[k] else if k < i + |mid| then mid[k - i] else ls[k - |mid| + 1]
      ensures InRange(r[k]) && r[k].typ != UnLck
    {
    }
    forall j, k | 0 <= j < k < |r| && r[j].owner == r[k].owner ensures Before(r[j], r[k]) {
      TrimOrder(ls, i, lock, mid, j, k);
    }
  }

  lemma TrimOrder(ls: seq<Lock>, i: int, lock: Lock, mid: seq<Lock>, j: int, k: int)
    requires Canonical(ls) && 0 <= i < |ls| && InRange(lock)
    requires |mid| <= 2 && forall m :: 0 <= m < |mid| ==>
      mid[m].owner == ls[i].owner && mid[m].typ == ls[i].typ && ls[i].start <= mid[m].start && mid[m].end <= ls[i].end
    requires |mid| == 2 ==> mid[0].end + 1 < mid[1].start
    requires 0 <= j < k < |ls| - 1 + |mid|
    requires Splice(ls, i, mid, i + 1)[j].owner == Splice(ls, i, mid, i + 1)[k].owner
    ensures Before(Splice(ls, i, mid, i + 1)[j], Splice(ls, i, mid, i + 1)[k])
  {
    var j0 := if j < i then j else if j < i + |mid| then i else j - |mid| + 1;
    var k0 := if k < i then k else if k < i + |mid| then i else k - |mid| + 1;
    if j0 < k0 {
      assert Before(ls[j0], ls[k0]);
    }
  }

  lemma InsertEdit(ls: seq<Lock>, i: int, lock: Lock)
    requires Canonical(ls) && 0 <= i <= |ls| && InRange(lock) && lock.typ != UnLck
    requires forall k :: 0 <= k < i && ls[k].owner == lock.owner ==> Before(ls[k], lock)
    requires forall k :: i <= k < |ls| && ls[k].owner == lock.owner ==> Before(lock, ls[k])
    ensures var r := Splice(ls, i, [lock], i);
      && Canonical(r)
      && (forall o, x :: TypeAt(r, o, x) == Overlay(lock, ls, o, x))
      && (forall o :: o != lock.owner ==> OwnedBy(r, o) == OwnedBy(ls, o))
  {
    var r := Splice(ls, i, [lock], i);
    assert forall k :: 0 <= k < |r| ==> r[k] == if k < i then ls[k] else if k == i then lock else ls[k - 1];
    assert Canonical(r);
    forall o, x ensures TypeAt(r, o, x) == Overlay(lock, ls, o, x) {
      if Covers(lock, o, x) {
        CoveredInCanonical(r, i, o, x);
      } else {
        SpliceElsewhere(ls, i, [lock], i, o, x);
      }
    }
    forall o | o != lock.owner ensures OwnedBy(r, o) == OwnedBy(ls, o) {
      SpliceOthers(ls, i, [lock], i, lock.owner, o);
    }
  }

}
