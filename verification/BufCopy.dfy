/** Scatter/gather copying of buffer.c between memory and descriptors.  A vector of buffers stands for
    the sequence of places its cursor still has to pass; reads and writes may be cut short or fail. */
module BufCopy {

  import opened Options

  type Fd = int

  // struct fuse_buf: memory at an address, or a descriptor with FUSE_BUF_FD_SEEK and FUSE_BUF_FD_RETRY.
  datatype Buf =
    | Memory(size: nat, mem: nat)
    | File(size: nat, fd: Fd, seek: bool, pos: nat, retry: bool)

  // A place that holds one byte.
  datatype Loc = InMemory(address: nat) | InFile(fd: Fd, position: nat)

  datatype Store = Store(mem: seq<bv8>, contents: map<Fd, seq<bv8>>)

  // -------------------------------------------------------------------------
  // Places and their bytes

  ghost function At(s: Store, loc: Loc): Option<bv8> {
    match loc
    case InMemory(a) => if a < |s.mem| then Some(s.mem[a]) else None
    case InFile(fd, p) => if fd in s.contents && p < |s.contents[fd]| then Some(s.contents[fd][p]) else None
  }

  ghost function OffsetOf(offsets: map<Fd, nat>, fd: Fd): nat {
    if fd in offsets then offsets[fd] else 0
  }

  /** The descriptor's own offset moves when the buffer does not give a position. */
  ghost function Moved(offsets: map<Fd, nat>, b: Buf, n: nat): map<Fd, nat> {
    if n > 0 && b.File? && !b.seek then offsets[b.fd := OffsetOf(offsets, b.fd) + n] else offsets
  }

  lemma MovedTwice(offsets: map<Fd, nat>, b: Buf, n: nat, m: nat)
    ensures Moved(Moved(offsets, b, n), b, m) == Moved(offsets, b, n + m)
  {
  }

  lemma MovedBy(offsets: map<Fd, nat>, b: Buf, n: nat)
    ensures Moved(offsets, b, 0) == offsets
    ensures b.File? && b.seek ==> Moved(offsets, b, n) == offsets
    ensures b.File? && !b.seek && n > 0 ==> Moved(offsets, b, n) == offsets[b.fd := OffsetOf(offsets, b.fd) + n]
    ensures b.File? ==> OffsetOf(Moved(offsets, b, n), b.fd) == OffsetOf(offsets, b.fd) + (if b.seek then 0 else n)
  {
  }

  ghost function Spot(b: Buf, off: nat, offsets: map<Fd, nat>, k: nat): Loc {
    match b
    case Memory(_, mem) => InMemory(mem + off + k)
    case File(_, fd, seek, pos, _) => InFile(fd, (if seek then pos + off else OffsetOf(offsets, fd)) + k)
  }

  /** The places of n bytes of a buffer from an offset. */
  ghost function Span(b: Buf, off: nat, n: nat, offsets: map<Fd, nat>): (s: seq<Loc>)
    ensures |s| == n
  {
    seq(n, k requires 0 <= k < n => Spot(b, off, offsets, k))
  }

  lemma SpanSplits(b: Buf, off: nat, n: nat, m: nat, offsets: map<Fd, nat>)
    requires m <= n
    ensures Span(b, off, n, offsets)[..m] == Span(b, off, m, offsets)
    ensures Span(b, off, n, offsets)[m..] == Span(b, off + m, n - m, Moved(offsets, b, m))
  {
  }

  /** The places a vector still has to pass, from its cursor. */
  ghost function Rest(bufs: seq<Buf>, idx: nat, off: nat, offsets: map<Fd, nat>): seq<Loc>
    requires idx <= |bufs| && (idx < |bufs| ==> off <= bufs[idx].size)
    decreases |bufs| - idx
  {
    if idx == |bufs| then []
    else
      var n := bufs[idx].size - off;
      Span(bufs[idx], off, n, offsets) + Rest(bufs, idx + 1, 0, Moved(offsets, bufs[idx], n))
  }

  /** The descriptors whose own offsets a vector still uses. */
  ghost function OffsetsUsed(bufs: seq<Buf>, idx: nat, off: nat): set<Fd>
    requires idx <= |bufs| && (idx < |bufs| ==> off <= bufs[idx].size)
    decreases |bufs| - idx
  {
    if idx == |bufs| then {}
    else
      var b := bufs[idx];
      (if b.File? && !b.seek && off < b.size then {b.fd} else {}) + OffsetsUsed(bufs, idx + 1, 0)
  }

  lemma {:induction false} RestFrame(bufs: seq<Buf>, idx: nat, off: nat, offsets: map<Fd, nat>, other: map<Fd, nat>)
    requires idx <= |bufs| && (idx < |bufs| ==> off <= bufs[idx].size)
    requires forall fd :: fd in OffsetsUsed(bufs, idx, off) ==> OffsetOf(offsets, fd) == OffsetOf(other, fd)
    ensures Rest(bufs, idx, off, other) == Rest(bufs, idx, off, offsets)
    decreases |bufs| - idx
  {
    if idx < |bufs| {
      var b, n := bufs[idx], bufs[idx].size - off;
      assert Span(b, off, n, other) == Span(b, off, n, offsets);
      forall fd | fd in OffsetsUsed(bufs, idx + 1, 0)
        ensures OffsetOf(Moved(offsets, b, n), fd) == OffsetOf(Moved(other, b, n), fd)
      {
        assert fd in OffsetsUsed(bufs, idx, off);
      }
      RestFrame(bufs, idx + 1, 0, Moved(offsets, b, n), Moved(other, b, n));
    }
  }

  /** Where the descriptor's own offset is, a byte will be read or written. */
  lemma {:induction false} OffsetPlace(bufs: seq<Buf>, idx: nat, off: nat, offsets: map<Fd, nat>, fd: Fd)
    requires idx <= |bufs| && (idx < |bufs| ==> off <= bufs[idx].size) && fd in OffsetsUsed(bufs, idx, off)
    ensures InFile(fd, OffsetOf(offsets, fd)) in Rest(bufs, idx, off, offsets)
    decreases |bufs| - idx
  {
    var b, n := bufs[idx], bufs[idx].size - off;
    if b.File? && !b.seek && n > 0 && b.fd == fd {
      assert Span(b, off, n, offsets)[0] == InFile(fd, OffsetOf(offsets, fd));
    } else {
      OffsetPlace(bufs, idx + 1, 0, Moved(offsets, b, n), fd);
    }
  }

  lemma RestAdvances(bufs: seq<Buf>, idx: nat, off: nat, offsets: map<Fd, nat>, n: nat)
    requires idx < |bufs| && off + n <= bufs[idx].size
    ensures var rest, offsets' := Rest(bufs, idx, off, offsets), Moved(offsets, bufs[idx], n);
      && n <= |rest| && rest[..n] == Span(bufs[idx], off, n, offsets)
      && rest[n..] == Rest(bufs, idx, off + n, offsets')
      && (off + n == bufs[idx].size ==> rest[n..] == Rest(bufs, idx + 1, 0, offsets'))
  {
    hide Span, Moved;
    var b, m := bufs[idx], bufs[idx].size - off;
    var o, o' := Moved(offsets, b, m), Moved(offsets, b, n);
    SpanSplits(b, off, m, n, offsets);
    MovedTwice(offsets, b, n, m - n);
    assert Rest(bufs, idx, off, offsets) == Span(b, off, m, offsets) + Rest(bufs, idx + 1, 0, o);
    assert Rest(bufs, idx, off + n, o') == Span(b, off + n, m - n, o') + Rest(bufs, idx + 1, 0, Moved(o', b, m - n));
  }

  // -------------------------------------------------------------------------
  // Copying

  /** No place is written twice, or is on both sides. In a file that is on both sides, the bytes to be
      read are there from the start. */
  ghost predicate Separate(s: Store, from: seq<Loc>, to: seq<Loc>) {
    && (forall i, j :: 0 <= i < j < |to| ==> to[i] != to[j])
    && (forall i, j :: 0 <= i < |from| && 0 <= j < |to| ==> from[i] != to[j])
    && (forall i, j :: 0 <= i < |from| && 0 <= j < |to| && from[i].InFile? && to[j].InFile? ==>
          from[i].fd == to[j].fd ==> At(s, from[i]).Some?)
  }

  /** None of the places is this one or lies in the same file. */
  ghost predicate Elsewhere(l: Loc, to: seq<Loc>) {
    forall m :: m in to ==> m != l && (m.InFile? && l.InFile? ==> m.fd != l.fd)
  }

  /** The bytes of `from` are now in `to`, in order; other bytes are as they were, and a file only grows
      where it was written (a gap reads as zeros). */
  ghost predicate Moves(before: Store, after: Store, from: seq<Loc>, to: seq<Loc>) {
    && |from| == |to|
    && (forall k {:trigger to[k]} :: 0 <= k < |to| ==>
          At(before, from[k]).Some? && At(after, to[k]) == At(before, from[k]))
    && (forall l: Loc {:trigger At(after, l)} :: l !in to && At(before, l).Some? ==> At(after, l) == At(before, l))
    && (forall l: Loc {:trigger At(after, l)} :: l !in to && At(before, l).None? ==> At(after, l) in {None, Some(0)})
    && (forall l: Loc {:trigger At(after, l)} :: Elsewhere(l, to) ==> At(after, l) == At(before, l))
  }

  lemma MovesTwice(s0: Store, s1: Store, s2: Store, f1: seq<Loc>, t1: seq<Loc>, f2: seq<Loc>, t2: seq<Loc>)
    requires Moves(s0, s1, f1, t1) && Moves(s1, s2, f2, t2) && Separate(s0, f1 + f2, t1 + t2)
    ensures Moves(s0, s2, f1 + f2, t1 + t2)
  {
    var from, to := f1 + f2, t1 + t2;
    forall k | 0 <= k < |to| ensures At(s0, from[k]).Some? && At(s2, to[k]) == At(s0, from[k]) {
      if k < |t1| {
        assert to[k] == t1[k];
        assert t1[k] !in t2 by {
          forall j | 0 <= j < |t2| ensures t2[j] != t1[k] { assert to[|t1| + j] == t2[j]; }
        }
      } else {
        var l := f2[k - |t1|];
        assert to[k] == t2[k - |t1|] && from[k] == l;
        forall m | m in t1 ensures m != l && (m.InFile? && l.InFile? && m.fd == l.fd ==> At(s0, l).Some?) {
          var j :| 0 <= j < |t1| && t1[j] == m;
          assert to[j] == m;
        }
        assert Elsewhere(l, t1) || At(s0, l).Some?;
        assert At(s1, l) == At(s0, l);
      }
    }
    forall l: Loc | l !in to ensures l !in t1 && l !in t2 {
      assert l in t1 || l in t2 ==> l in t1 + t2;
    }
    forall l: Loc | Elsewhere(l, to) ensures At(s2, l) == At(s0, l) {
      assert Elsewhere(l, t1) && Elsewhere(l, t2) by {
        forall m | m in t1 || m in t2 ensures m in to { }
      }
    }
  }

  /** pwrite: the bytes at a position, after zeros if the file was shorter. */
  function Written(content: seq<bv8>, pos: nat, data: seq<bv8>): (r: seq<bv8>)
    ensures data != [] ==> |r| == if pos + |data| > |content| then pos + |data| else |content|
  {
    if data == [] then content
    else
      var padded := content + seq(if pos > |content| then pos - |content| else 0, _ => 0);
      padded[..pos] + data + (if pos + |data| < |content| then content[pos + |data|..] else [])
  }

  lemma WrittenAt(content: seq<bv8>, pos: nat, data: seq<bv8>, k: nat)
    requires data != [] && k < |Written(content, pos, data)|
    ensures Written(content, pos, data)[k] ==
      if pos <= k < pos + |data| then data[k - pos] else if k < |content| then content[k] else 0
  {
    var padded := content + seq(if pos > |content| then pos - |content| else 0, _ => 0);
    assert k < pos ==> padded[..pos][k] == padded[k];
  }

  lemma WrittenTwice(content: seq<bv8>, pos: nat, a: seq<bv8>, b: seq<bv8>)
    ensures Written(Written(content, pos, a), pos + |a|, b) == Written(content, pos, a + b)
  {
    if a == [] {
      assert a + b == b;
    } else if b == [] {
      assert a + b == a;
    } else {
      hide Written;
      var first := Written(content, pos, a);
      var second, both := Written(first, pos + |a|, b), Written(content, pos, a + b);
      forall k | 0 <= k < |second| ensures second[k] == both[k] {
        WrittenAt(first, pos + |a|, b, k);
        WrittenAt(content, pos, a + b, k);
        if k < |first| {
          WrittenAt(content, pos, a, k);
        }
      }
    }
  }

  lemma Prefixes(data: seq<bv8>, n: nat, m: nat)
    requires n + m <= |data|
    ensures data[..n] + data[n..][..m] == data[..n + m]
  {
  }

  ghost function Put(contents: map<Fd, seq<bv8>>, fd: Fd, pos: nat, data: seq<bv8>): map<Fd, seq<bv8>> {
    if fd in contents then contents[fd := Written(contents[fd], pos, data)] else contents
  }

  lemma PutTwice(contents: map<Fd, seq<bv8>>, fd: Fd, pos: nat, a: seq<bv8>, b: seq<bv8>)
    ensures Put(Put(contents, fd, pos, a), fd, pos + |a|, b) == Put(contents, fd, pos, a + b)
  {
    if fd in contents {
      WrittenTwice(contents[fd], pos, a, b);
    }
  }

  lemma PutNothing(contents: map<Fd, seq<bv8>>, fd: Fd, pos: nat)
    ensures Put(contents, fd, pos, []) == contents
  {
  }

  /** Bytes written to a file come from where they were. */
  lemma PutMoves(s: Store, fd: Fd, pos: nat, data: seq<bv8>, from: seq<Loc>, to: seq<Loc>)
    requires fd in s.contents && |from| == |data| == |to|
    requires forall k :: 0 <= k < |data| ==> At(s, from[k]) == Some(data[k])
    requires forall k :: 0 <= k < |data| ==> to[k] == InFile(fd, pos + k)
    ensures Moves(s, s.(contents := Put(s.contents, fd, pos, data)), from, to)
  {
    hide Written;
    var after := s.(contents := Put(s.contents, fd, pos, data));
    if data == [] {
      PutNothing(s.contents, fd, pos);
      NothingMoves(s, from, to);
      return;
    }
    assert to[0] in to;
    forall k | 0 <= k < |to| ensures At(after, to[k]) == At(s, from[k]) {
      WrittenAt(s.contents[fd], pos, data, pos + k);
    }
    forall l: Loc ensures l !in to ==> At(after, l) == At(s, l) || (At(s, l).None? && At(after, l) == Some(0)) {
      if l.InFile? && l.fd == fd {
        if pos <= l.position < pos + |data| {
          assert to[l.position - pos] == l;
        } else if l.position < |after.contents[fd]| {
          WrittenAt(s.contents[fd], pos, data, l.position);
        }
      }
    }
  }

  /** Some bytes of a memory replaced. */
  ghost function Patched(mem: seq<bv8>, at: nat, data: seq<bv8>): (r: seq<bv8>)
    requires at + |data| <= |mem|
    ensures |r| == |mem|
  {
    mem[..at] + data + mem[at + |data|..]
  }

  lemma PatchedTwice(mem: seq<bv8>, at: nat, a: seq<bv8>, b: seq<bv8>)
    requires at + |a| + |b| <= |mem|
    ensures Patched(Patched(mem, at, a), at + |a|, b) == Patched(mem, at, a + b)
  {
  }

  lemma PatchedNot(mem: seq<bv8>, at: nat)
    requires at <= |mem|
    ensures Patched(mem, at, []) == mem
  {
  }

  lemma PatchedIs(mem: seq<bv8>, at: nat, data: seq<bv8>, mem': seq<bv8>)
    requires at + |data| <= |mem| == |mem'|
    requires forall k :: 0 <= k < |mem| ==> mem'[k] == if at <= k < at + |data| then data[k - at] else mem[k]
    ensures mem' == Patched(mem, at, data)
  {
  }

  lemma PatchedSame(mem: seq<bv8>, at: nat, len: nat)
    requires at + len <= |mem|
    ensures Patched(mem, at, mem[at..at + len]) == mem
  {
  }

  lemma PatchedHere(mem: seq<bv8>, at: nat, data: seq<bv8>)
    requires at + |data| <= |mem|
    ensures Patched(mem, at, data)[at..at + |data|] == data
  {
  }

  /** What a read of n bytes at a position brings. */
  ghost function Got(contents: map<Fd, seq<bv8>>, fd: Fd, pos: nat, n: nat): (r: seq<bv8>)
    requires n > 0 ==> fd in contents && pos + n <= |contents[fd]|
    ensures |r| == n
  {
    if n > 0 then contents[fd][pos..pos + n] else []
  }

  lemma GotTwice(contents: map<Fd, seq<bv8>>, fd: Fd, pos: nat, n: nat, m: nat)
    requires n + m > 0 ==> fd in contents && pos + n + m <= |contents[fd]|
    ensures Got(contents, fd, pos, n) + Got(contents, fd, pos + n, m) == Got(contents, fd, pos, n + m)
  {
  }

  /** Bytes stored in memory come from where they were. */
  lemma StoreMoves(s: Store, address: nat, data: seq<bv8>, from: seq<Loc>, to: seq<Loc>)
    requires address + |data| <= |s.mem| && |from| == |data| == |to|
    requires forall k :: 0 <= k < |data| ==> At(s, from[k]) == Some(data[k])
    requires forall k :: 0 <= k < |data| ==> to[k] == InMemory(address + k)
    ensures Moves(s, s.(mem := Patched(s.mem, address, data)), from, to)
  {
    var after := s.(mem := Patched(s.mem, address, data));
    forall l: Loc ensures l !in to ==> At(after, l) == At(s, l) {
      if l.InMemory? && address <= l.address < address + |data| {
        assert to[l.address - address] == l;
      }
    }
  }

  lemma SpanNext(b: Buf, off: nat, offsets: map<Fd, nat>, offsets': map<Fd, nat>, n: nat, m: nat)
    requires b.File? && !b.seek ==> OffsetOf(offsets', b.fd) == OffsetOf(offsets, b.fd) + n
    ensures Span(b, off, n, offsets) + Span(b, off + n, m, offsets') == Span(b, off, n + m, offsets)
  {
  }

  /** One copy of at most len bytes between two buffers: what it moved is a prefix of what it was asked
      to move, and a copy that is not cut short leaves both descriptors' offsets behind it. */
  ghost predicate CopyDone(before: Store, offsets: map<Fd, nat>, after: Store, offsets': map<Fd, nat>,
                           dst: Buf, dstOff: nat, src: Buf, srcOff: nat, len: nat, res: int) {
    var n := Count(res);
    && res <= len
    && (Separate(before, Span(src, srcOff, len, offsets), Span(dst, dstOff, len, offsets)) ==>
      && Moves(before, after, Span(src, srcOff, n, offsets), Span(dst, dstOff, n, offsets))
      && (res == len ==> offsets' == Moved(Moved(offsets, src, len), dst, len)))
  }

  lemma SeparateParts(s: Store, from: seq<Loc>, to: seq<Loc>, i: nat, j: nat)
    requires Separate(s, from, to) && i <= j <= |from| && j <= |to|
    ensures Separate(s, from[i..j], to[i..j])
  {
  }

  /** What was separate stays so while bytes are moved. */
  lemma SeparateLater(s0: Store, s1: Store, from: seq<Loc>, to: seq<Loc>, n: nat)
    requires Separate(s0, from, to) && n <= |from| && n <= |to| && Moves(s0, s1, from[..n], to[..n])
    ensures Separate(s1, from, to)
  {
    forall i | 0 <= i < |from| && At(s0, from[i]).Some? ensures At(s1, from[i]).Some? {
      assert from[i] !in to[..n];
    }
  }

  /** At most one of the two buffers moves the offset of its descriptor, if they have the same. */
  predicate Apart(src: Buf, dst: Buf)
    requires src.File? && dst.File?
  {
    src.fd == dst.fd ==> src.seek || dst.seek
  }

  lemma SeparateApart(s: Store, offsets: map<Fd, nat>, src: Buf, srcOff: nat, dst: Buf, dstOff: nat, len: nat)
    requires Separate(s, Span(src, srcOff, len, offsets), Span(dst, dstOff, len, offsets))
    requires src.File? && dst.File? && len > 0
    ensures Apart(src, dst)
  {
    assert Span(src, srcOff, len, offsets)[0] != Span(dst, dstOff, len, offsets)[0];
  }

  /** A read into a spare buffer followed by a write from it. */
  lemma Relayed(s: Store, offsets: map<Fd, nat>, dst: Buf, dstOff: nat, src: Buf, srcOff: nat, n: nat, w: nat)
    requires src.File? && dst.File? && Apart(src, dst) && w <= n
    requires n > 0 ==> src.fd in s.contents && Start(src, srcOff, OffsetOf(offsets, src.fd)) + n <= |s.contents[src.fd]|
    requires w > 0 ==> dst.fd in s.contents
    ensures var data := Got(s.contents, src.fd, Start(src, srcOff, OffsetOf(offsets, src.fd)), n)[..w];
      var start := Start(dst, dstOff, OffsetOf(Moved(offsets, src, n), dst.fd));
      Moves(s, s.(contents := Put(s.contents, dst.fd, start, data)), Span(src, srcOff, w, offsets),
            Span(dst, dstOff, w, offsets))
  {
    var data := Got(s.contents, src.fd, Start(src, srcOff, OffsetOf(offsets, src.fd)), n)[..w];
    if w > 0 {
      PutMoves(s, dst.fd, Start(dst, dstOff, OffsetOf(offsets, dst.fd)), data, Span(src, srcOff, w, offsets),
               Span(dst, dstOff, w, offsets));
    } else {
      assert data == [];
    }
  }

  /** The offsets of two descriptors that move together. */
  lemma RoundOffsets(o0: map<Fd, nat>, o1: map<Fd, nat>, dst: Buf, src: Buf, copied: nat, n: nat)
    requires src.File? && dst.File? && Apart(src, dst) && o1 == Moved(Moved(o0, src, copied), dst, copied)
    ensures Moved(Moved(o1, src, n), dst, n) == Moved(Moved(o0, src, copied + n), dst, copied + n)
    ensures !src.seek ==> OffsetOf(o1, src.fd) == OffsetOf(o0, src.fd) + copied
    ensures !dst.seek ==> OffsetOf(o1, dst.fd) == OffsetOf(o0, dst.fd) + copied
  {
  }

  /** One more round of copying between descriptors. */
  lemma RoundDone(s0: Store, o0: map<Fd, nat>, s1: Store, o1: map<Fd, nat>, dst: Buf, dstOff: nat, src: Buf,
                  srcOff: nat, len: nat, copied: nat, n: nat, w: nat)
    requires src.File? && dst.File? && w <= n && 0 < n && copied + n <= len
    requires Separate(s0, Span(src, srcOff, len, o0), Span(dst, dstOff, len, o0))
    requires Moves(s0, s1, Span(src, srcOff, copied, o0), Span(dst, dstOff, copied, o0)) &&
      o1 == Moved(Moved(o0, src, copied), dst, copied)
    requires src.fd in s1.contents && Start(src, srcOff + copied, OffsetOf(o1, src.fd)) + n <= |s1.contents[src.fd]|
    requires w > 0 ==> dst.fd in s1.contents
    ensures var data := Got(s1.contents, src.fd, Start(src, srcOff + copied, OffsetOf(o1, src.fd)), n)[..w];
      var start := Start(dst, dstOff + copied, OffsetOf(Moved(o1, src, n), dst.fd));
      Moves(s0, s1.(contents := Put(s1.contents, dst.fd, start, data)), Span(src, srcOff, copied + w, o0),
            Span(dst, dstOff, copied + w, o0))
    ensures w == n ==> Moved(Moved(o1, src, n), dst, w) == Moved(Moved(o0, src, copied + w), dst, copied + w)
  {
    hide Moves, Put, Got, Separate, Moved, OffsetOf;
    SeparateApart(s0, o0, src, srcOff, dst, dstOff, len);
    var data := Got(s1.contents, src.fd, Start(src, srcOff + copied, OffsetOf(o1, src.fd)), n)[..w];
    var start := Start(dst, dstOff + copied, OffsetOf(Moved(o1, src, n), dst.fd));
    var s2 := s1.(contents := Put(s1.contents, dst.fd, start, data));
    Relayed(s1, o1, dst, dstOff + copied, src, srcOff + copied, n, w);
    RoundOffsets(o0, o1, dst, src, copied, n);
    SpanNext(src, srcOff, o0, o1, copied, w);
    SpanNext(dst, dstOff, o0, o1, copied, w);
    SpanSplits(src, srcOff, len, copied + w, o0);
    SpanSplits(dst, dstOff, len, copied + w, o0);
    SeparateParts(s0, Span(src, srcOff, len, o0), Span(dst, dstOff, len, o0), 0, copied + w);
    MovesTwice(s0, s1, s2, Span(src, srcOff, copied, o0), Span(dst, dstOff, copied, o0),
               Span(src, srcOff + copied, w, o1), Span(dst, dstOff + copied, w, o1));
  }

  /** Some bytes are moved, and both offsets are behind them. */
  ghost predicate CopiedTogether(before: Store, offsets: map<Fd, nat>, after: Store, offsets': map<Fd, nat>,
                                 dst: Buf, dstOff: nat, src: Buf, srcOff: nat, n: nat) {
    && Moves(before, after, Span(src, srcOff, n, offsets), Span(dst, dstOff, n, offsets))
    && offsets' == Moved(Moved(offsets, src, n), dst, n)
  }

  lemma NothingMoves(s: Store, from: seq<Loc>, to: seq<Loc>)
    requires from == [] == to
    ensures Moves(s, s, from, to)
  {
  }

  // -------------------------------------------------------------------------
  // Vectors

  function Left(bufs: seq<Buf>, idx: nat, off: nat): (n: nat)
    requires idx <= |bufs| && (idx < |bufs| ==> off <= bufs[idx].size)
    decreases |bufs| - idx
  {
    if idx == |bufs| then 0 else bufs[idx].size - off + Left(bufs, idx + 1, 0)
  }

  lemma {:induction false} RestLength(bufs: seq<Buf>, idx: nat, off: nat, offsets: map<Fd, nat>)
    requires idx <= |bufs| && (idx < |bufs| ==> off <= bufs[idx].size)
    ensures |Rest(bufs, idx, off, offsets)| == Left(bufs, idx, off)
    decreases |bufs| - idx
  {
    hide Span, Moved;
    if idx < |bufs| {
      var n := bufs[idx].size - off;
      var tail := Moved(offsets, bufs[idx], n);
      RestLength(bufs, idx + 1, 0, tail);
      assert Rest(bufs, idx, off, offsets) == Span(bufs[idx], off, n, offsets) + Rest(bufs, idx + 1, 0, tail);
    }
  }

  lemma LeftMoves(bufs: seq<Buf>, idx: nat, off: nat, n: nat)
    requires idx < |bufs| && off + n <= bufs[idx].size
    ensures Left(bufs, idx, off + n) == Left(bufs, idx, off) - n
    ensures off + n == bufs[idx].size ==> Left(bufs, idx + 1, 0) == Left(bufs, idx, off) - n
    ensures Left(bufs, |bufs|, 0) == 0
  {
  }

  /** The cursor moved by n bytes, past the buffer if that is used up. */
  predicate Advanced(bufs: seq<Buf>, idx: nat, off: nat, n: nat, idx': nat, off': nat)
    requires idx < |bufs| && off + n <= bufs[idx].size
  {
    if off + n < bufs[idx].size then idx' == idx && off' == off + n
    else idx' == idx + 1 && (idx' < |bufs| ==> off' == 0)
  }

  /** After an uninterrupted copy between the two cursors' buffers, a cursor stands before the places
      that were not yet passed, whatever the other side did to its descriptors. */
  lemma CursorMoves(bufs: seq<Buf>, idx: nat, off: nat, offsets: map<Fd, nat>, n: nat, other: Buf,
                    offsets': map<Fd, nat>, idx': nat, off': nat)
    requires idx < |bufs| && off + n <= bufs[idx].size && Advanced(bufs, idx, off, n, idx', off')
    requires forall fd :: !(n > 0 && other.File? && !other.seek && fd == other.fd) ==>
      OffsetOf(offsets', fd) == OffsetOf(Moved(offsets, bufs[idx], n), fd)
    requires n > 0 && other.File? && !other.seek ==> other.fd !in OffsetsUsed(bufs, idx, off)
    ensures n <= |Rest(bufs, idx, off, offsets)|
    ensures Rest(bufs, idx', off', offsets') == Rest(bufs, idx, off, offsets)[n..]
  {
    RestAdvances(bufs, idx, off, offsets, n);
    var rest := Rest(bufs, idx, off, offsets);
    var tail := Rest(bufs, idx', off', Moved(offsets, bufs[idx], n));
    assert tail == rest[n..];
    assert OffsetsUsed(bufs, idx', off') <= OffsetsUsed(bufs, idx, off);
    RestFrame(bufs, idx', off', Moved(offsets, bufs[idx], n), offsets');
  }

  function Start(b: Buf, off: nat, offset: nat): (pos: nat)
    requires b.File?
  {
    if b.seek then b.pos + off else offset
  }

  function Count(res: int): (n: nat)
    ensures n == if res < 0 then 0 else res
  {
    if res < 0 then 0 else res
  }

  lemma MemoryCopied(s: Store, offsets: map<Fd, nat>, dst: Buf, dstOff: nat, src: Buf, srcOff: nat, len: nat)
    requires dst.Memory? && src.Memory? && dst.mem + dstOff + len <= |s.mem| && src.mem + srcOff + len <= |s.mem|
    ensures var from := src.mem + srcOff;
      CopyDone(s, offsets, s.(mem := Patched(s.mem, dst.mem + dstOff, s.mem[from..from + len])), offsets, dst, dstOff,
               src, srcOff, len, len)
  {
    var from := src.mem + srcOff;
    StoreMoves(s, dst.mem + dstOff, s.mem[from..from + len], Span(src, srcOff, len, offsets),
               Span(dst, dstOff, len, offsets));
  }

  lemma WriteDone(s: Store, offsets: map<Fd, nat>, dst: Buf, dstOff: nat, src: Buf, srcOff: nat, len: nat, res: int)
    requires dst.File? && src.Memory? && src.mem + srcOff + len <= |s.mem| && res <= len &&
      (res > 0 ==> dst.fd in s.contents)
    ensures var data := s.mem[src.mem + srcOff..src.mem + srcOff + len][..Count(res)];
      var contents := Put(s.contents, dst.fd, Start(dst, dstOff, OffsetOf(offsets, dst.fd)), data);
      CopyDone(s, offsets, s.(contents := contents), Moved(offsets, dst, Count(res)), dst, dstOff, src, srcOff, len,
               res)
  {
    var n := Count(res);
    var data := s.mem[src.mem + srcOff..src.mem + srcOff + len][..n];
    if n > 0 {
      PutMoves(s, dst.fd, Start(dst, dstOff, OffsetOf(offsets, dst.fd)), data, Span(src, srcOff, n, offsets),
               Span(dst, dstOff, n, offsets));
    } else {
      PutNothing(s.contents, dst.fd, Start(dst, dstOff, OffsetOf(offsets, dst.fd)));
      NothingMoves(s, Span(src, srcOff, n, offsets), Span(dst, dstOff, n, offsets));
    }
  }

  lemma ReadDone(s: Store, offsets: map<Fd, nat>, dst: Buf, dstOff: nat, src: Buf, srcOff: nat, len: nat, res: int)
    requires dst.Memory? && src.File? && dst.mem + dstOff + len <= |s.mem| && res <= len
    requires res > 0 ==>
      src.fd in s.contents && Start(src, srcOff, OffsetOf(offsets, src.fd)) + res <= |s.contents[src.fd]|
    ensures var data := Got(s.contents, src.fd, Start(src, srcOff, OffsetOf(offsets, src.fd)), Count(res));
      CopyDone(s, offsets, s.(mem := Patched(s.mem, dst.mem + dstOff, data)), Moved(offsets, src, Count(res)), dst,
               dstOff, src, srcOff, len, res)
  {
    var n := Count(res);
    var data := Got(s.contents, src.fd, Start(src, srcOff, OffsetOf(offsets, src.fd)), n);
    StoreMoves(s, dst.mem + dstOff, data, Span(src, srcOff, n, offsets), Span(dst, dstOff, n, offsets));
  }

  /** One round of fuse_buf_copy, seen from the start of the call: `src` and `dst` are the buffers at
      the cursors and o1, s1 the state at the start of the round. */
  lemma CopyRound(s0: Store, s1: Store, o1: map<Fd, nat>, s2: Store, o2: map<Fd, nat>, from: seq<Loc>, to: seq<Loc>,
                  copied: nat, dst: Buf, dstOff: nat, src: Buf, srcOff: nat, len: nat, res: int)
    requires copied <= |from| && copied <= |to| && Separate(s0, from, to)
    requires Moves(s0, s1, from[..copied], to[..copied])
    requires CopyDone(s1, o1, s2, o2, dst, dstOff, src, srcOff, len, res)
    requires copied + len <= |from| && copied + len <= |to|
    requires from[copied..copied + len] == Span(src, srcOff, len, o1) &&
      to[copied..copied + len] == Span(dst, dstOff, len, o1)
    ensures Moves(s0, s2, from[..copied + Count(res)], to[..copied + Count(res)])
    ensures res == len ==> o2 == Moved(Moved(o1, src, len), dst, len)
  {
    hide Moves, Separate, Moved;
    var n := Count(res);
    SeparateLater(s0, s1, from, to, copied);
    SeparateParts(s1, from, to, copied, copied + len);
    SpanSplits(src, srcOff, len, n, o1);
    SpanSplits(dst, dstOff, len, n, o1);
    assert from[..copied] + from[copied..copied + len][..n] == from[..copied + n];
    assert to[..copied] + to[copied..copied + len][..n] == to[..copied + n];
    SeparateParts(s0, from, to, 0, copied + n);
    assert from[..copied + n] == from[0..copied + n] && to[..copied + n] == to[0..copied + n];
    MovesTwice(s0, s1, s2, from[..copied], to[..copied], Span(src, srcOff, n, o1), Span(dst, dstOff, n, o1));
  }

  lemma RoundKeeps(s0: Store, s1: Store, o1: map<Fd, nat>, s2: Store, o2: map<Fd, nat>, from: seq<Loc>, to: seq<Loc>,
                   copied: nat,
                   dbufs: seq<Buf>, di: nat, doff: nat, sbufs: seq<Buf>, si: nat, soff: nat, len: nat, res: int)
    requires copied <= |from| && copied <= |to| && Separate(s0, from, to) && Moves(s0, s1, from[..copied], to[..copied])
    requires si < |sbufs| && soff + len <= sbufs[si].size && Rest(sbufs, si, soff, o1) == from[copied..]
    requires di < |dbufs| && doff + len <= dbufs[di].size && Rest(dbufs, di, doff, o1) == to[copied..]
    requires CopyDone(s1, o1, s2, o2, dbufs[di], doff, sbufs[si], soff, len, res) && res <= len
    ensures copied + len <= |from| && copied + len <= |to|
    ensures Moves(s0, s2, from[..copied + Count(res)], to[..copied + Count(res)])
    ensures res == len ==> o2 == Moved(Moved(o1, sbufs[si], len), dbufs[di], len)
  {
    hide Moves, Separate, Moved, Rest, CopyDone;
    RestAdvances(sbufs, si, soff, o1, len);
    RestAdvances(dbufs, di, doff, o1, len);
    assert from[copied..][..len] == from[copied..copied + len] && to[copied..][..len] == to[copied..copied + len];
    CopyRound(s0, s1, o1, s2, o2, from, to, copied, dbufs[di], doff, sbufs[si], soff, len, res);
  }

  lemma Disjoint(s: Store, from: seq<Loc>, to: seq<Loc>, n: nat)
    requires Separate(s, from, to) && n <= |from| && n <= |to|
    ensures forall i, j :: 0 <= i < |from[n..]| && 0 <= j < |to[n..]| ==> from[n..][i] != to[n..][j]
  {
  }

  /** Separate vectors do not use the same descriptor's own offset. */
  lemma NotUsed(offsets: map<Fd, nat>, from: seq<Loc>, to: seq<Loc>, dbufs: seq<Buf>, di: nat, doff: nat,
                sbufs: seq<Buf>, si: nat, soff: nat)
    requires forall i, j :: 0 <= i < |from| && 0 <= j < |to| ==> from[i] != to[j]
    requires si <= |sbufs| && (si < |sbufs| ==> soff <= sbufs[si].size) && Rest(sbufs, si, soff, offsets) == from
    requires di <= |dbufs| && (di < |dbufs| ==> doff <= dbufs[di].size) && Rest(dbufs, di, doff, offsets) == to
    ensures OffsetsUsed(sbufs, si, soff) !! OffsetsUsed(dbufs, di, doff)
  {
    forall fd | fd in OffsetsUsed(sbufs, si, soff) && fd in OffsetsUsed(dbufs, di, doff) ensures false {
      OffsetPlace(sbufs, si, soff, offsets, fd);
      OffsetPlace(dbufs, di, doff, offsets, fd);
    }
  }

  lemma RoundCursors(s0: Store, o1: map<Fd, nat>, o2: map<Fd, nat>, from: seq<Loc>, to: seq<Loc>, copied: nat,
                     dbufs: seq<Buf>, di: nat, doff: nat, di': nat, doff': nat,
                     sbufs: seq<Buf>, si: nat, soff: nat, si': nat, soff': nat, len: nat)
    requires copied <= |from| && copied <= |to| && Separate(s0, from, to)
    requires si < |sbufs| && soff + len <= sbufs[si].size && Rest(sbufs, si, soff, o1) == from[copied..]
    requires di < |dbufs| && doff + len <= dbufs[di].size && Rest(dbufs, di, doff, o1) == to[copied..]
    requires o2 == Moved(Moved(o1, sbufs[si], len), dbufs[di], len)
    requires Advanced(sbufs, si, soff, len, si', soff') && Advanced(dbufs, di, doff, len, di', doff')
    ensures copied + len <= |from| && copied + len <= |to|
    ensures Rest(sbufs, si', soff', o2) == from[copied + len..]
    ensures Rest(dbufs, di', doff', o2) == to[copied + len..]
  {
    hide Rest, Separate;
    var src, dst := sbufs[si], dbufs[di];
    RestAdvances(sbufs, si, soff, o1, len);
    RestAdvances(dbufs, di, doff, o1, len);
    Disjoint(s0, from, to, copied);
    NotUsed(o1, from[copied..], to[copied..], dbufs, di, doff, sbufs, si, soff);
    CursorMoves(sbufs, si, soff, o1, len, dst, o2, si', soff');
    CursorMoves(dbufs, di, doff, o1, len, src, o2, di', doff');
    assert from[copied..][len..] == from[copied + len..] && to[copied..][len..] == to[copied + len..];
  }

  /** struct fuse_bufvec. */
  class Vec {
    const bufs: seq<Buf>
    var idx: nat
    var off: nat

    constructor (bufs: seq<Buf>)
      ensures this.bufs == bufs && idx == 0 && off == 0 && Valid()
    {
      this.bufs, idx, off := bufs, 0, 0;
    }

    predicate Valid()
      reads this
    {
      idx <= |bufs| && (idx < |bufs| ==> off <= bufs[idx].size)
    }

    /** How many bytes the cursor has not passed. */
    ghost function Remaining(): nat
      requires Valid()
      reads this
    {
      Left(bufs, idx, off)
    }

    ghost function Places(offsets: map<Fd, nat>): seq<Loc>
      requires Valid()
      reads this
    {
      Rest(bufs, idx, off, offsets)
    }

    /** fuse_buf_size. */
    method TotalSize() returns (size: nat)
      ensures size == Left(bufs, 0, 0)
    {
      size := 0;
      var i := 0;
      while i < |bufs|
        invariant 0 <= i <= |bufs| && size + Left(bufs, i, 0) == Left(bufs, 0, 0)
      {
        size := size + bufs[i].size;
        i := i + 1;
      }
    }

    /** fuse_bufvec_advance. */
    method Advance(len: nat) returns (more: bool)
      requires Valid() && idx < |bufs| && off + len <= bufs[idx].size
      modifies this`idx, this`off
      ensures Valid() && Advanced(bufs, old(idx), old(off), len, idx, off)
      ensures more <==> idx < |bufs|
      ensures Remaining() == old(Remaining()) - len
    {
      LeftMoves(bufs, idx, off, len);
      off := off + len;
      if off == bufs[idx].size {
        idx := idx + 1;
        if idx == |bufs| {
          return false;
        }
        off := 0;
      }
      return true;
    }
  }

  /** The process's memory and its open descriptors. */
  class System {
    const mem: array<bv8>
    var contents: map<Fd, seq<bv8>>
    var offsets: map<Fd, nat>
    ghost var short: bool      // some call did less than it was asked
    ghost var stopped: bool    // some call that was asked for something did nothing

    constructor (mem: array<bv8>, contents: map<Fd, seq<bv8>>, offsets: map<Fd, nat>)
      ensures this.mem == mem && this.contents == contents && this.offsets == offsets
    {
      this.mem, this.contents, this.offsets := mem, contents, offsets;
    }

    ghost function Now(): Store
      reads this, mem
    {
      Store(mem[..], contents)
    }

    // -----------------------------------------------------------------------
    // The kernel: any call may fail, or do less than it was asked

    method Pwrite(fd: Fd, data: seq<bv8>, pos: nat) returns (res: int)
      modifies this`contents, this`short, this`stopped
      ensures short == (old(short) || res < |data|) && stopped == (old(stopped) || (res <= 0 < |data|))
      ensures res <= |data| && (res > 0 ==> fd in old(contents))
      ensures contents == Put(old(contents), fd, pos, data[..Count(res)])
    {
      res :| res <= |data|;
      if fd !in contents && res >= 0 {
        res := -9;
      }
      if res > 0 {
        contents := contents[fd := Written(contents[fd], pos, data[..res])];
      }
      PutNothing(old(contents), fd, pos);
      short, stopped := short || res < |data|, stopped || (res <= 0 < |data|);
    }

    method Pread(fd: Fd, to: array<bv8>, at: nat, len: nat, pos: nat) returns (res: int)
      requires at + len <= to.Length
      modifies to, this`short, this`stopped
      ensures short == (old(short) || res < len) && stopped == (old(stopped) || (res <= 0 < len))
      ensures res <= len && (res > 0 ==> fd in contents && pos + res <= |contents[fd]|)
      ensures to[..] == Patched(old(to[..]), at, Got(contents, fd, pos, Count(res)))
    {
      PatchedNot(to[..], at);
      if fd !in contents {
        short, stopped := true, stopped || 0 < len;
        return -9;
      }
      res :| res <= len && (res > 0 ==> pos + res <= |contents[fd]|);
      forall k | 0 <= k < res {
        to[at + k] := contents[fd][pos + k];
      }
      short, stopped := short || res < len, stopped || (res <= 0 < len);
    }

    method Write(fd: Fd, data: seq<bv8>) returns (res: int)
      modifies this`contents, this`offsets, this`short, this`stopped
      ensures short == (old(short) || res < |data|) && stopped == (old(stopped) || (res <= 0 < |data|))
      ensures res <= |data| && (res > 0 ==> fd in old(contents))
      ensures contents == Put(old(contents), fd, OffsetOf(old(offsets), fd), data[..Count(res)])
      ensures offsets == if res > 0 then old(offsets)[fd := OffsetOf(old(offsets), fd) + res] else old(offsets)
    {
      var pos := if fd in offsets then offsets[fd] else 0;
      res := Pwrite(fd, data, pos);
      if res > 0 {
        offsets := offsets[fd := pos + res];
      }
    }

    method Read(fd: Fd, to: array<bv8>, at: nat, len: nat) returns (res: int)
      requires at + len <= to.Length
      modifies to, this`offsets, this`short, this`stopped
      ensures short == (old(short) || res < len) && stopped == (old(stopped) || (res <= 0 < len))
      ensures var pos := OffsetOf(old(offsets), fd);
        && res <= len && (res > 0 ==> fd in contents && pos + res <= |contents[fd]|)
        && to[..] == Patched(old(to[..]), at, Got(contents, fd, pos, Count(res)))
        && offsets == if res > 0 then old(offsets)[fd := pos + res] else old(offsets)
    {
      var pos := if fd in offsets then offsets[fd] else 0;
      res := Pread(fd, to, at, len, pos);
      if res > 0 {
        offsets := offsets[fd := pos + res];
      }
    }

    // -----------------------------------------------------------------------

    /** fuse_buf_write: what reached the file is a prefix of what was to be written. */
    method BufWrite(dst: Buf, dstOff: nat, from: array<bv8>, at: nat, len: nat) returns (res: int)
      requires dst.File? && at + len <= from.Length
      modifies this`contents, this`offsets, this`short, this`stopped
      ensures (old(short) ==> short) && (old(stopped) ==> stopped)
      ensures (res < len ==> short) && (res < len && dst.retry ==> stopped) && (res <= 0 < len ==> stopped)
      ensures res <= len && (res > 0 ==> dst.fd in old(contents))
      ensures var start := Start(dst, dstOff, OffsetOf(old(offsets), dst.fd));
        contents == Put(old(contents), dst.fd, start, from[at..at + len][..Count(res)])
      ensures offsets == Moved(old(offsets), dst, Count(res))
    {
      hide Written, Put, Moved, OffsetOf;
      ghost var start, data := Start(dst, dstOff, OffsetOf(offsets, dst.fd)), from[at..at + len];
      var copied: nat, left: nat, off, src := 0, len, dstOff, at;
      PutNothing(contents, dst.fd, start);
      MovedBy(offsets, dst, 0);
      while left > 0
        invariant (old(short) ==> short) && (old(stopped) ==> stopped)
        invariant copied + left == len && src == at + copied && off == dstOff + copied
        invariant copied > 0 ==> dst.fd in old(contents)
        invariant contents == Put(old(contents), dst.fd, start, data[..copied])
        invariant offsets == Moved(old(offsets), dst, copied)
      {
        var n;
        ghost var was := offsets;
        MovedBy(old(offsets), dst, copied);
        assert from[src..src + left] == data[copied..];
        if dst.seek {
          n := Pwrite(dst.fd, from[src..src + left], dst.pos + off);
        } else {
          n := Write(dst.fd, from[src..src + left]);
        }
        Prefixes(data, copied, Count(n));
        PutTwice(old(contents), dst.fd, start, data[..copied], data[copied..][..Count(n)]);
        MovedBy(was, dst, Count(n));
        MovedTwice(old(offsets), dst, copied, Count(n));
        if n < 0 {
          if copied == 0 {
            return n;
          }
          break;
        }
        if n == 0 {
          break;
        }
        copied := copied + n;
        if !dst.retry {
          break;
        }
        src, off, left := src + n, off + n, left - n;
      }
      return copied;
    }

    /** fuse_buf_read: what arrived in memory is a prefix of what the descriptor had. */
    method BufRead(to: array<bv8>, at: nat, src: Buf, srcOff: nat, len: nat) returns (res: int)
      requires src.File? && at + len <= to.Length
      modifies to, this`offsets, this`short, this`stopped
      ensures (old(short) ==> short) && (old(stopped) ==> stopped)
      ensures (res < len ==> short) && (res < len && src.retry ==> stopped) && (res <= 0 < len ==> stopped)
      ensures var start := Start(src, srcOff, OffsetOf(old(offsets), src.fd));
        && res <= len && (res > 0 ==> src.fd in contents && start + res <= |contents[src.fd]|)
        && to[..] == Patched(old(to[..]), at, Got(contents, src.fd, start, Count(res)))
        && offsets == Moved(old(offsets), src, Count(res))
    {
      hide Patched, Got, Moved, OffsetOf;
      ghost var start, was := Start(src, srcOff, OffsetOf(offsets, src.fd)), to[..];
      var copied: nat, left: nat, off, dst := 0, len, srcOff, at;
      PatchedNot(was, at);
      assert Got(contents, src.fd, start, 0) == [];
      MovedBy(offsets, src, 0);
      while left > 0
        invariant (old(short) ==> short) && (old(stopped) ==> stopped)
        invariant copied + left == len && dst == at + copied && off == srcOff + copied
        invariant copied > 0 ==> src.fd in contents && start + copied <= |contents[src.fd]|
        invariant to[..] == Patched(was, at, Got(contents, src.fd, start, copied))
        invariant offsets == Moved(old(offsets), src, copied)
      {
        var n;
        ghost var offsets' := offsets;
        MovedBy(old(offsets), src, copied);
        if src.seek {
          n := Pread(src.fd, to, dst, left, src.pos + off);
        } else {
          n := Read(src.fd, to, dst, left);
        }
        MovedBy(offsets', src, Count(n));
        MovedTwice(old(offsets), src, copied, Count(n));
        GotTwice(contents, src.fd, start, copied, Count(n));
        PatchedTwice(was, at, Got(contents, src.fd, start, copied), Got(contents, src.fd, start + copied, Count(n)));
        if n < 0 {
          if copied == 0 {
            return n;
          }
          break;
        }
        if n == 0 {
          break;
        }
        copied := copied + n;
        if !src.retry {
          break;
        }
        dst, off, left := dst + n, off + n, left - n;
      }
      return copied;
    }

    /** fuse_buf_fd_to_fd, through a buffer of 4096 bytes. */
    method FdToFd(dst: Buf, dstOff: nat, src: Buf, srcOff: nat, len: nat) returns (res: int)
      requires dst.File? && src.File?
      modifies this`contents, this`offsets, this`short, this`stopped
      ensures (old(short) ==> short) && (old(stopped) ==> stopped)
      ensures (res < len ==> short) && (res < len && src.retry && dst.retry ==> stopped) && (res <= 0 < len ==> stopped)
      ensures CopyDone(old(Now()), old(offsets), Now(), offsets, dst, dstOff, src, srcOff, len, res)
    {
      hide Moves, Put, Got, Patched, Separate, Span, Moved, OffsetOf, Start;
      ghost var from, to := Span(src, srcOff, len, offsets), Span(dst, dstOff, len, offsets);
      var tmp := new bv8[4096];
      var copied: nat, left: nat, d, s := 0, len, dstOff, srcOff;
      NothingMoves(Now(), Span(src, srcOff, 0, offsets), Span(dst, dstOff, 0, offsets));
      MovedBy(offsets, src, 0);
      MovedBy(offsets, dst, 0);
      while left > 0
        invariant (old(short) ==> short) && (old(stopped) ==> stopped)
        invariant copied + left == len && d == dstOff + copied && s == srcOff + copied
        invariant Separate(old(Now()), from, to) ==>
          CopiedTogether(old(Now()), old(offsets), Now(), offsets, dst, dstOff, src, srcOff, copied)
      {
        var thisLen := if 4096 < left then 4096 else left;
        ghost var s1, o1 := Now(), offsets;
        label Before:
        var n := BufRead(tmp, 0, src, s, thisLen);
        if n < 0 {
          if copied == 0 {
            return n;
          }
          break;
        }
        if n == 0 {
          break;
        }
        PatchedHere(old@Before(tmp[..]), 0, Got(contents, src.fd, Start(src, s, OffsetOf(o1, src.fd)), n));
        var w := BufWrite(dst, d, tmp, 0, n);
        if Separate(old(Now()), from, to) {
          RoundDone(old(Now()), old(offsets), s1, o1, dst, dstOff, src, srcOff, len, copied, n, Count(w));
        }
        if w < 0 {
          if copied == 0 {
            return w;
          }
          break;
        }
        if w == 0 {
          break;
        }
        copied := copied + w;
        if w < thisLen {
          break;
        }
        d, s, left := d + w, s + w, left - w;
      }
      return copied;
    }

    /** memcpy, or memmove for ranges that overlap; nothing when they are the same. */
    method MoveMemory(d: nat, s: nat, len: nat)
      requires d + len <= mem.Length && s + len <= mem.Length
      modifies mem
      ensures mem[..] == Patched(old(mem[..]), d, old(mem[s..s + len]))
    {
      hide Patched;
      if d == s {
        PatchedSame(mem[..], d, len);
      } else {
        ghost var was := mem[..];
        forall k | 0 <= k < len {
          mem[d + k] := mem[s + k];
        }
        PatchedIs(was, d, was[s..s + len], mem[..]);
      }
    }

    /** fuse_buf_copy_one. */
    method CopyOne(dst: Buf, dstOff: nat, src: Buf, srcOff: nat, len: nat) returns (res: int)
      requires dstOff + len <= dst.size && srcOff + len <= src.size
      requires (dst.Memory? ==> dst.mem + dst.size <= mem.Length) && (src.Memory? ==> src.mem + src.size <= mem.Length)
      modifies this`contents, this`offsets, this`short, this`stopped, mem
      ensures (old(short) ==> short) && (old(stopped) ==> stopped)
      ensures (res < len ==> short) && (res < len && Retries(dst) && Retries(src) ==> stopped)
      ensures CopyDone(old(Now()), old(offsets), Now(), offsets, dst, dstOff, src, srcOff, len, res) && res <= len
      ensures dst.Memory? && src.Memory? ==> res == len && short == old(short) && stopped == old(stopped)
    {
      hide Patched, Put, Got, Moved, OffsetOf, Moves, Separate, Span;
      if src.Memory? && dst.Memory? {
        MemoryCopied(Now(), offsets, dst, dstOff, src, srcOff, len);
        MoveMemory(dst.mem + dstOff, src.mem + srcOff, len);
        return len;
      } else if src.Memory? {
        res := BufWrite(dst, dstOff, mem, src.mem + srcOff, len);
        WriteDone(old(Now()), old(offsets), dst, dstOff, src, srcOff, len, res);
      } else if dst.Memory? {
        res := BufRead(mem, dst.mem + dstOff, src, srcOff, len);
        ReadDone(old(Now()), old(offsets), dst, dstOff, src, srcOff, len, res);
      } else {
        res := FdToFd(dst, dstOff, src, srcOff, len);
      }
    }

    /** A call fell short of what it was asked or, where every call is repeated until one of them does
        nothing, one did nothing. */
    ghost predicate CutShort(dstv: Vec, srcv: Vec)
      reads this`short, this`stopped
    {
      if AllRetry(dstv.bufs) && AllRetry(srcv.bufs) then stopped else short
    }

    /** The state of a copy of `copied` bytes between rounds. */
    ghost predicate Between(s0: Store, from: seq<Loc>, to: seq<Loc>, copied: nat, dstv: Vec, srcv: Vec)
      reads this, mem, dstv, srcv
    {
      && srcv.Valid() && dstv.Valid() && copied <= |from| && copied <= |to|
      && srcv.Remaining() == |from| - copied && dstv.Remaining() == |to| - copied
      && (Separate(s0, from, to) ==> Moves(s0, Now(), from[..copied], to[..copied]))
      && (Separate(s0, from, to) ==> srcv.Places(offsets) == from[copied..] && dstv.Places(offsets) == to[copied..])
      && (srcv.off == 0 || dstv.off == 0 || copied == 0)
    }

    /** One round of fuse_buf_copy; `more` if the loop goes on. */
    method Round(dstv: Vec, srcv: Vec, ghost s0: Store, ghost from: seq<Loc>, ghost to: seq<Loc>, ghost copied: nat)
      returns (n: int, more: bool)
      requires dstv != srcv && Fits(dstv.bufs, mem.Length) && Fits(srcv.bufs, mem.Length)
      requires Between(s0, from, to, copied, dstv, srcv) && srcv.idx < |srcv.bufs| && dstv.idx < |dstv.bufs|
      modifies this`contents, this`offsets, this`short, this`stopped, mem, dstv, srcv
      ensures srcv.Valid() && dstv.Valid()
      ensures n >= 0 && more ==>
        Between(s0, from, to, copied + n, dstv, srcv) && srcv.idx < |srcv.bufs| && dstv.idx < |dstv.bufs|
      ensures n >= 0 && more ==>
        |srcv.bufs| - srcv.idx + |dstv.bufs| - dstv.idx < old(|srcv.bufs| - srcv.idx + |dstv.bufs| - dstv.idx)
      ensures CopyResult(s0, Now(), from, to, copied + Count(n))
      ensures CursorsMoved(dstv, srcv, |from|, |to|, copied + Count(n))
      ensures (old(short) ==> short) && (old(stopped) ==> stopped)
      ensures !CutShort(dstv, srcv) ==> n >= 0 && (more || srcv.idx == |srcv.bufs| || dstv.idx == |dstv.bufs|)
      ensures AllMemory(dstv.bufs) && AllMemory(srcv.bufs) ==> n >= 0
      ensures AllMemory(dstv.bufs) && AllMemory(srcv.bufs) && !more ==>
        srcv.idx == |srcv.bufs| || dstv.idx == |dstv.bufs|
    {
      hide Moves, Separate, Rest, Left, CopyDone, Moved;
      var src, dst := srcv.bufs[srcv.idx], dstv.bufs[dstv.idx];
      var srcLen, dstLen := src.size - srcv.off, dst.size - dstv.off;
      var len := if srcLen < dstLen then srcLen else dstLen;
      ghost var s1, o1, si, soff, di, doff := Now(), offsets, srcv.idx, srcv.off, dstv.idx, dstv.off;
      n := CopyOne(dst, dstv.off, src, srcv.off, len);
      if Separate(s0, from, to) {
        RoundKeeps(s0, s1, o1, Now(), offsets, from, to, copied, dstv.bufs, di, doff, srcv.bufs, si, soff, len, n);
      }
      LeftMoves(srcv.bufs, si, soff, len);
      LeftMoves(dstv.bufs, di, doff, len);
      if n < 0 {
        return n, false;
      }
      more := srcv.Advance(n);
      if !more {
        return;
      }
      more := dstv.Advance(n);
      if !more {
        return;
      }
      if n < len {
        return n, false;
      }
      if Separate(s0, from, to) {
        RoundCursors(s0, o1, offsets, from, to, copied, dstv.bufs, di, doff, dstv.idx, dstv.off,
                     srcv.bufs, si, soff, srcv.idx, srcv.off, len);
      }
    }

    /** The loop of fuse_buf_copy. */
    method CopyRounds(dstv: Vec, srcv: Vec) returns (res: int)
      requires dstv != srcv && dstv.Valid() && srcv.Valid() && Fits(dstv.bufs, mem.Length) &&
        Fits(srcv.bufs, mem.Length)
      modifies this`contents, this`offsets, this`short, this`stopped, mem, dstv, srcv
      ensures dstv.Valid() && srcv.Valid()
      ensures CopyResult(old(Now()), Now(), old(srcv.Places(offsets)), old(dstv.Places(offsets)), Count(res))
      ensures CursorsMoved(dstv, srcv, old(srcv.Remaining()), old(dstv.Remaining()), Count(res))
      ensures (old(short) ==> short) && (old(stopped) ==> stopped)
      ensures !CutShort(dstv, srcv) ==> res >= 0 && (srcv.idx == |srcv.bufs| || dstv.idx == |dstv.bufs|)
      ensures AllMemory(dstv.bufs) && AllMemory(srcv.bufs)
        ==> res >= 0 && (srcv.idx == |srcv.bufs| || dstv.idx == |dstv.bufs|)
    {
      hide Moves, Separate, Rest, Left;
      ghost var s0, from, to := Now(), srcv.Places(offsets), dstv.Places(offsets);
      RestLength(srcv.bufs, srcv.idx, srcv.off, offsets);
      RestLength(dstv.bufs, dstv.idx, dstv.off, offsets);
      NothingMoves(s0, from[..0], to[..0]);
      assert from[0..] == from && to[0..] == to;
      var copied: nat := 0;
      while srcv.idx < |srcv.bufs| && dstv.idx < |dstv.bufs|
        invariant (old(short) ==> short) && (old(stopped) ==> stopped)
        invariant Between(s0, from, to, copied, dstv, srcv)
        invariant copied == 0 || (srcv.idx < |srcv.bufs| && dstv.idx < |dstv.bufs|)
        decreases |srcv.bufs| - srcv.idx + |dstv.bufs| - dstv.idx
      {
        var n, more := Round(dstv, srcv, s0, from, to, copied);
        if n < 0 {
          if copied == 0 {
            return n;
          }
          return copied;
        }
        copied := copied + n;
        if !more {
          return copied;
        }
      }
      return copied;
    }

    /** fuse_buf_copy: the bytes that were delivered are a prefix of the source's, in order. */
    method Copy(dstv: Vec, srcv: Vec) returns (res: int)
      requires dstv.Valid() && srcv.Valid() && Fits(dstv.bufs, mem.Length) && Fits(srcv.bufs, mem.Length)
      modifies this`contents, this`offsets, this`short, this`stopped, mem, dstv, srcv
      ensures dstv.Valid() && srcv.Valid()
      ensures dstv == srcv ==>
        res == Left(dstv.bufs, 0, 0) && Now() == old(Now()) && dstv.idx == old(dstv.idx) && dstv.off == old(dstv.off)
      ensures dstv != srcv ==>
        CopyResult(old(Now()), Now(), old(srcv.Places(offsets)), old(dstv.Places(offsets)), Count(res))
      ensures dstv != srcv ==> CursorsMoved(dstv, srcv, old(srcv.Remaining()), old(dstv.Remaining()), Count(res))
      ensures dstv != srcv && !CutShort(dstv, srcv) ==>
        var from, to := old(srcv.Remaining()), old(dstv.Remaining()); res == if from < to then from else to
      ensures dstv != srcv && AllMemory(dstv.bufs) && AllMemory(srcv.bufs)
        ==> var from, to := old(srcv.Remaining()), old(dstv.Remaining()); res == if from < to then from else to
    {
      hide Moves, Separate, Rest;
      short, stopped := false, false;
      if dstv == srcv {
        res := dstv.TotalSize();
        return;
      }
      RestLength(srcv.bufs, srcv.idx, srcv.off, offsets);
      RestLength(dstv.bufs, dstv.idx, dstv.off, offsets);
      res := CopyRounds(dstv, srcv);
    }
  }

  /** After n bytes the source cursor has passed n bytes.  So has the destination's, unless the source
      ran out: then it lacks the bytes of the last copy, which began where one of the vectors' buffers
      began or where the call began. */
  ghost predicate CursorsMoved(dstv: Vec, srcv: Vec, from: nat, to: nat, n: nat)
    requires dstv.Valid() && srcv.Valid()
    reads dstv, srcv
  {
    var lag := dstv.Remaining() - (to - n);
    && srcv.Remaining() == from - n
    && (srcv.idx < |srcv.bufs| ==> lag == 0)
    && (srcv.idx == |srcv.bufs| && dstv.idx < |dstv.bufs| ==>
        && 0 <= lag && dstv.off + lag <= dstv.bufs[dstv.idx].size
        && (dstv.off == 0 || lag == n || (srcv.bufs != [] && lag == srcv.bufs[|srcv.bufs| - 1].size)))
  }

  predicate Fits(bufs: seq<Buf>, memory: nat) {
    forall i :: 0 <= i < |bufs| && bufs[i].Memory? ==> bufs[i].mem + bufs[i].size <= memory
  }

  /** Reads and writes of this buffer are repeated until one of them does nothing. */
  predicate Retries(b: Buf) {
    b.File? ==> b.retry
  }

  predicate AllRetry(bufs: seq<Buf>) {
    forall i :: 0 <= i < |bufs| ==> Retries(bufs[i])
  }

  predicate AllMemory(bufs: seq<Buf>) {
    forall i :: 0 <= i < |bufs| ==> bufs[i].Memory?
  }

  /** What a copy of n bytes means for the places of the two vectors. */
  ghost predicate CopyResult(before: Store, after: Store, from: seq<Loc>, to: seq<Loc>, n: nat) {
    && n <= |from| && n <= |to|
    && (Separate(before, from, to) ==> Moves(before, after, from[..n], to[..n]))
  }

  // -------------------------------------------------------------------------
  // Memory vectors as byte strings

  /** The bytes of a memory vector from its cursor, one buffer after the other. */
  ghost function Flat(mem: seq<bv8>, bufs: seq<Buf>, idx: nat, off: nat): (r: seq<bv8>)
    requires idx <= |bufs| && (idx < |bufs| ==> off <= bufs[idx].size) && Fits(bufs, |mem|) && AllMemory(bufs)
    ensures |r| == Left(bufs, idx, off)
    decreases |bufs| - idx
  {
    if idx == |bufs| then []
    else mem[bufs[idx].mem + off..bufs[idx].mem + bufs[idx].size] + Flat(mem, bufs, idx + 1, 0)
  }

  lemma {:induction false} FlatPlaces(s: Store, bufs: seq<Buf>, idx: nat, off: nat, offsets: map<Fd, nat>, k: nat)
    requires idx <= |bufs| && (idx < |bufs| ==> off <= bufs[idx].size) && Fits(bufs, |s.mem|) && AllMemory(bufs)
    requires k < Left(bufs, idx, off)
    ensures |Rest(bufs, idx, off, offsets)| == Left(bufs, idx, off)
    ensures At(s, Rest(bufs, idx, off, offsets)[k]) == Some(Flat(s.mem, bufs, idx, off)[k])
    decreases |bufs| - idx
  {
    hide Rest, Flat, Moved, Span;
    RestLength(bufs, idx, off, offsets);
    var n, tail := bufs[idx].size - off, Moved(offsets, bufs[idx], bufs[idx].size - off);
    RestStep(bufs, idx, off, offsets, k);
    FlatStep(s.mem, bufs, idx, off, k);
    if k >= n {
      RestLength(bufs, idx + 1, 0, tail);
      FlatPlaces(s, bufs, idx + 1, 0, tail, k - n);
    }
  }

  lemma RestStep(bufs: seq<Buf>, idx: nat, off: nat, offsets: map<Fd, nat>, k: nat)
    requires idx < |bufs| && off <= bufs[idx].size && k < |Rest(bufs, idx, off, offsets)|
    ensures var n := bufs[idx].size - off; var tail := Rest(bufs, idx + 1, 0, Moved(offsets, bufs[idx], n));
      && |Rest(bufs, idx, off, offsets)| == n + |tail|
      && Rest(bufs, idx, off, offsets)[k] == if k < n then Spot(bufs[idx], off, offsets, k) else tail[k - n]
  {
    hide Moved, Spot;
  }

  lemma FlatStep(mem: seq<bv8>, bufs: seq<Buf>, idx: nat, off: nat, k: nat)
    requires idx < |bufs| && off <= bufs[idx].size && Fits(bufs, |mem|) && AllMemory(bufs) && k < Left(bufs, idx, off)
    ensures var n := bufs[idx].size - off;
      Flat(mem, bufs, idx, off)[k] == if k < n then mem[bufs[idx].mem + off + k] else Flat(mem, bufs, idx + 1, 0)[k - n]
  {
  }

  /** A copy between memory vectors that share no byte is the copy of a prefix of the one byte string
      over the other, which otherwise keeps its bytes. */
  lemma FlatCopied(before: Store, after: Store, offsets: map<Fd, nat>, src: seq<Buf>, si: nat, soff: nat,
                   dst: seq<Buf>, di: nat, doff: nat, n: nat)
    requires si <= |src| && (si < |src| ==> soff <= src[si].size) && Fits(src, |before.mem|) && AllMemory(src)
    requires di <= |dst| && (di < |dst| ==> doff <= dst[di].size) && Fits(dst, |before.mem|) && AllMemory(dst)
    requires |after.mem| == |before.mem|
    requires CopyResult(before, after, Rest(src, si, soff, offsets), Rest(dst, di, doff, offsets), n)
    requires Separate(before, Rest(src, si, soff, offsets), Rest(dst, di, doff, offsets))
    ensures n <= Left(src, si, soff) && n <= Left(dst, di, doff)
    ensures Flat(after.mem, dst, di, doff) ==
      Flat(before.mem, src, si, soff)[..n] + Flat(before.mem, dst, di, doff)[n..]
  {
    hide Rest, Flat, Left, At, Fits, AllMemory;
    var from, to := Rest(src, si, soff, offsets), Rest(dst, di, doff, offsets);
    RestLength(src, si, soff, offsets);
    RestLength(dst, di, doff, offsets);
    forall k | 0 <= k < |to|
      ensures Flat(after.mem, dst, di, doff)[k] == if k < n then Flat(before.mem, src, si, soff)[k]
                                                   else Flat(before.mem, dst, di, doff)[k]
    {
      FlatPlaces(before, dst, di, doff, offsets, k);
      FlatPlaces(after, dst, di, doff, offsets, k);
      if k < n {
        FlatPlaces(before, src, si, soff, offsets, k);
        assert to[..n][k] == to[k] && from[..n][k] == from[k];
      } else {
        assert to[k] !in to[..n];
      }
    }
  }

  /** ... and the source keeps its bytes. */
  lemma FlatKept(before: Store, after: Store, offsets: map<Fd, nat>, src: seq<Buf>, si: nat, soff: nat, to: seq<Loc>,
                 n: nat)
    requires si <= |src| && (si < |src| ==> soff <= src[si].size) && Fits(src, |before.mem|) && AllMemory(src)
    requires |after.mem| == |before.mem|
    requires CopyResult(before, after, Rest(src, si, soff, offsets), to, n) &&
      Separate(before, Rest(src, si, soff, offsets), to)
    ensures Flat(after.mem, src, si, soff) == Flat(before.mem, src, si, soff)
  {
    hide Rest, Flat, Left, At, Fits, AllMemory;
    var from := Rest(src, si, soff, offsets);
    RestLength(src, si, soff, offsets);
    forall k | 0 <= k < |from| ensures Flat(after.mem, src, si, soff)[k] == Flat(before.mem, src, si, soff)[k] {
      FlatPlaces(before, src, si, soff, offsets, k);
      FlatPlaces(after, src, si, soff, offsets, k);
      assert from[k] !in to[..n];
    }
  }
}
