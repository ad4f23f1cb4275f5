/** The subdir module's rewriting of absolute symbolic links to relative ones, in place in the
    caller's buffer. */
module Symlinks {

  // -------------------------------------------------------------------------
  // Path components and lexical resolution (section 4.13 of POSIX.1-2017, Base Definitions)

  /** How many characters come before the first slash. */
  function WordLen(s: string): (n: nat)
    ensures n <= |s|
  {
    if s == "" || s[0] == '/' then 0 else 1 + WordLen(s[1..])
  }

  /** The components of a path: what stands between slashes. */
  function Comps(s: string): seq<string>
    decreases |s|
  {
    if s == "" then []
    else if s[0] == '/' then Comps(s[1..])
    else [s[..WordLen(s)]] + Comps(s[WordLen(s)..])
  }

  /** Following one component from a directory given by its components. */
  function Enter(dir: seq<string>, name: string): seq<string> {
    if name == "." then dir
    else if name == ".." then (if dir == [] then [] else dir[..|dir| - 1])
    else dir + [name]
  }

  function Follow(dir: seq<string>, names: seq<string>): seq<string>
    decreases |names|
  {
    if names == [] then dir else Follow(Enter(dir, names[0]), names[1..])
  }

  /** Where a link found in `dir` leads. */
  function Target(dir: seq<string>, link: string): seq<string> {
    Follow(if link != "" && link[0] == '/' then [] else dir, Comps(link))
  }

  predicate Plain(names: seq<string>) {
    forall i :: 0 <= i < |names| ==> names[i] != "." && names[i] != ".."
  }

  /** The directory in which the link at `path` lies. */
  function DirOf(path: string): seq<string> {
    var c := Comps(path);
    Follow([], if c == [] then [] else c[..|c| - 1])
  }

  // -------------------------------------------------------------------------
  // Facts about components

  lemma WordLenIs(s: string, n: nat)
    requires n <= |s| && (forall k :: 0 <= k < n ==> s[k] != '/') && (n == |s| || s[n] == '/')
    ensures WordLen(s) == n
  {
    if n > 0 {
      assert forall k :: 0 <= k < n - 1 ==> s[1..][k] == s[k + 1];
      WordLenIs(s[1..], n - 1);
    }
  }

  lemma CompsWord(s: string, n: nat)
    requires 0 < n <= |s| && (forall k :: 0 <= k < n ==> s[k] != '/') && (n == |s| || s[n] == '/')
    ensures Comps(s) == [s[..n]] + Comps(s[n..])
  {
    WordLenIs(s, n);
  }

  lemma CompsSlash(s: string)
    requires s != "" && s[0] == '/'
    ensures Comps(s) == Comps(s[1..])
  {
  }

  /** Dropping characters in front never adds components. */
  lemma {:induction false} CompsOfTail(s: string, k: nat)
    requires k <= |s|
    ensures |Comps(s[k..])| <= |Comps(s)|
    decreases |s|
  {
    if k > 0 {
      assert s[k..] == s[1..][k - 1..];
      CompsOfTail(s[1..], k - 1);
      if s[0] != '/' {
        var n := WordLen(s);
        if n > 1 {
          WordLenOfTail(s);
          assert s[1..][n - 1..] == s[n..];
        } else {
          assert n == 1;
        }
      }
    }
  }

  lemma WordLenOfTail(s: string)
    requires s != "" && s[0] != '/'
    ensures WordLen(s[1..]) == WordLen(s) - 1
  {
  }

  /** A prefix that ends in a slash has components of its own. */
  lemma {:induction false} CompsSplit(a: string, b: string)
    requires a == "" || a[|a| - 1] == '/'
    ensures Comps(a + b) == Comps(a) + Comps(b)
    decreases |a|
  {
    if a == "" {
      assert a + b == b;
    } else if a[0] == '/' {
      assert (a + b)[1..] == a[1..] + b;
      CompsSplit(a[1..], b);
    } else {
      var n := WordLen(a);
      WordBeforeSlash(a);
      assert forall k :: 0 <= k < n ==> (a + b)[k] == a[k];
      WordLenIs(a + b, n);
      assert (a + b)[n..] == a[n..] + b && (a + b)[..n] == a[..n];
      CompsSplit(a[n..], b);
      assert [a[..n]] + (Comps(a[n..]) + Comps(b)) == ([a[..n]] + Comps(a[n..])) + Comps(b);
    }
  }

  lemma WordBeforeSlash(a: string)
    requires a != "" && a[|a| - 1] == '/'
    ensures WordLen(a) < |a| && a[WordLen(a)] == '/' && forall k :: 0 <= k < WordLen(a) ==> a[k] != '/'
  {
    if a[0] != '/' {
      WordBeforeSlash(a[1..]);
      assert forall k :: 1 <= k < WordLen(a) ==> a[k] == a[1..][k - 1];
    }
  }

  lemma {:induction false} FollowConcat(dir: seq<string>, a: seq<string>, b: seq<string>)
    ensures Follow(dir, a + b) == Follow(Follow(dir, a), b)
    decreases |a|
  {
    if a == [] {
      assert a + b == b;
    } else {
      assert (a + b)[1..] == a[1..] + b;
      FollowConcat(Enter(dir, a[0]), a[1..], b);
    }
  }

  lemma {:induction false} FollowPlain(dir: seq<string>, a: seq<string>)
    requires Plain(a)
    ensures Follow(dir, a) == dir + a
    decreases |a|
  {
    if a == [] {
    } else {
      FollowPlain(Enter(dir, a[0]), a[1..]);
      assert dir + [a[0]] + a[1..] == dir + a;
    }
  }

  function Ups(n: nat): seq<string> {
    seq(n, _ => "..")
  }

  lemma {:induction false} FollowUps(dir: seq<string>, a: seq<string>)
    ensures Follow(dir + a, Ups(|a|)) == dir
    decreases |a|
  {
    if a == [] {
      assert dir + a == dir;
    } else {
      assert Ups(|a|)[1..] == Ups(|a| - 1);
      assert (dir + a)[..|dir + a| - 1] == dir + a[..|a| - 1];
      FollowUps(dir, a[..|a| - 1]);
    }
  }

  function UpText(n: nat): string {
    if n == 0 then "" else "../" + UpText(n - 1)
  }

  lemma {:induction false} UpTextComps(n: nat, l: string)
    ensures Comps(UpText(n) + l) == Ups(n) + Comps(l)
  {
    if n == 0 {
      assert UpText(0) + l == l;
    } else {
      UpTextComps(n - 1, l);
      assert UpText(n) + l == "../" + (UpText(n - 1) + l);
      OneUp(UpText(n - 1) + l);
      assert Ups(n) == [".."] + Ups(n - 1);
    }
  }

  lemma OneUp(l: string)
    ensures Comps("../" + l) == [".."] + Comps(l)
  {
    var t := "../" + l;
    CompsWord(t, 2);
    assert t[..2] == ".." && t[2..][1..] == l;
    CompsSlash(t[2..]);
  }

  lemma {:induction false} UpTextStep(n: nat)
    ensures |UpText(n)| == 3 * n && UpText(n + 1) == UpText(n) + "../"
  {
    if n > 0 {
      UpTextStep(n - 1);
      assert "../" + (UpText(n - 1) + "../") == ("../" + UpText(n - 1)) + "../";
    }
  }

  /** The heart of the matter: from the link's own directory, climbing out of what its path does not
      share with the old target and then following the rest of the old target leads to the same place. */
  lemma SameTarget(path: string, link: string, common: seq<string>, up: seq<string>, rest: seq<string>)
    requires Comps(path) == common + up && Comps(link) == common + rest
    requires link != "" && link[0] == '/' && up != [] && Plain(up)
    ensures Follow(DirOf(path), Ups(|up| - 1) + rest) == Target(DirOf(path), link)
  {
    var upper := up[..|up| - 1];
    assert Comps(path)[..|Comps(path)| - 1] == common + upper;
    FollowConcat([], common, upper);
    FollowPlain(Follow([], common), upper);
    FollowConcat(DirOf(path), Ups(|upper|), rest);
    FollowUps(Follow([], common), upper);
    FollowConcat([], common, rest);
  }

  // -------------------------------------------------------------------------
  // count_components and strip_common

  method CountComponents(p: string) returns (ctr: nat)
    ensures ctr == |Comps(p)|
  {
    var k := SkipSlashes(p, 0);
    ctr := 0;
    assert p[0..] == p;
    while k < |p|
      invariant 0 <= k <= |p| && ctr + |Comps(p[k..])| == |Comps(p)|
      invariant k < |p| ==> p[k] != '/'
      decreases |p| - k
    {
      k := SkipWord(p, k);
      k := SkipSlashes(p, k);
      ctr := ctr + 1;
    }
  }

  /** The inner loop `for (; *p && *p != '/'; p++)`. */
  method SkipWord(p: string, from: nat) returns (k: nat)
    requires from < |p| && p[from] != '/'
    ensures from < k <= |p| && |Comps(p[from..])| == 1 + |Comps(p[k..])|
  {
    k := from;
    while k < |p| && p[k] != '/'
      invariant from <= k <= |p| && forall j :: from <= j < k ==> p[j] != '/'
    {
      k := k + 1;
    }
    CompsWord(p[from..], k - from);
    assert p[from..][k - from..] == p[k..];
  }

  /** The inner loops `for (; *p == '/'; p++)`. */
  method SkipSlashes(p: string, from: nat) returns (k: nat)
    requires from <= |p|
    ensures from <= k <= |p| && (k < |p| ==> p[k] != '/') && (forall j :: from <= j < k ==> p[j] == '/')
    ensures Comps(p[k..]) == Comps(p[from..])
  {
    k := from;
    while k < |p| && p[k] == '/'
      invariant from <= k <= |p| && (forall j :: from <= j < k ==> p[j] == '/')
      invariant Comps(p[k..]) == Comps(p[from..])
    {
      CompsSlash(p[k..]);
      assert p[k..][1..] == p[k + 1..];
      k := k + 1;
    }
  }

  /** strip_common: `i` and `j` are where the two paths go on after the components they share. The
      paths may be known to share the text s[..known]; then that much at least is stripped. */
  method StripCommon(s: string, t: string, ghost known: nat) returns (i: nat, j: nat, ghost common: seq<string>)
    requires known <= |s| && known <= |t| && s[..known] == t[..known] && (known > 0 ==> s[known - 1] == '/')
    ensures i <= |s| && j <= |t| && (i < |s| ==> s[i] != '/') && (j < |t| ==> t[j] != '/')
    ensures Comps(s) == common + Comps(s[i..]) && Comps(t) == common + Comps(t[j..])
    ensures i >= known && j >= known
  {
    hide Comps;
    var a, b := 0, 0;
    common := [];
    assert s[0..] == s && t[0..] == t;
    while true
      invariant 0 <= a <= |s| && 0 <= b <= |t|
      invariant Comps(s) == common + Comps(s[a..]) && Comps(t) == common + Comps(t[b..])
      invariant (a == b && a < known) || (a >= known && b >= known)
      decreases |s| - a
    {
      i := SkipSlashes(s, a);
      j := SkipSlashes(t, b);
      if a < known { SkipTogether(s, t, known, a, i, j); }
      a, b := MatchRun(s, t, i, j);
      var bothSlash := a < |s| && b < |t| && s[a] == t[b];
      var sEnds := a == |s| && b < |t| && t[b] == '/';
      var tEnds := a < |s| && s[a] == '/' && b == |t|;
      if i < known { KnownGoesOn(s, t, known, i, a); }
      if !bothSlash && !sEnds && !tEnds {
        return;
      }
      WordsEqual(s, t, i, j, a, b);
      common := common + [s[i..a]];
    }
  }

  /** The inner loop of strip_common: equal characters, up to a slash or a difference. */
  method MatchRun(s: string, t: string, i: nat, j: nat) returns (a: nat, b: nat)
    requires i <= |s| && j <= |t|
    ensures i <= a <= |s| && j <= b <= |t| && a - i == b - j
    ensures forall k :: i <= k < a ==> s[k] != '/' && s[k] == t[k - i + j]
    ensures !(a < |s| && b < |t| && s[a] == t[b] && s[a] != '/')
  {
    a, b := i, j;
    while a < |s| && b < |t| && s[a] == t[b] && s[a] != '/'
      invariant i <= a <= |s| && j <= b <= |t| && a - i == b - j
      invariant forall k :: i <= k < a ==> s[k] != '/' && s[k] == t[k - i + j]
    {
      a, b := a + 1, b + 1;
    }
  }

  lemma WordsEqual(s: string, t: string, i: nat, j: nat, a: nat, b: nat)
    requires i < a <= |s| && j < b <= |t| && a - i == b - j
    requires forall k :: i <= k < a ==> s[k] != '/' && s[k] == t[k - i + j]
    requires (a == |s| || s[a] == '/') && (b == |t| || t[b] == '/')
    ensures Comps(s[i..]) == [s[i..a]] + Comps(s[a..]) && Comps(t[j..]) == [s[i..a]] + Comps(t[b..])
  {
    CompsWord(s[i..], a - i);
    assert forall k :: 0 <= k < b - j ==> t[j..][k] == s[i + k];
    CompsWord(t[j..], b - j);
    assert s[i..][..a - i] == s[i..a] && s[i..][a - i..] == s[a..];
    assert t[j..][..b - j] == s[i..a] && t[j..][b - j..] == t[b..];
  }

  lemma SkipTogether(s: string, t: string, known: nat, a: nat, i: nat, j: nat)
    requires known <= |s| && known <= |t| && s[..known] == t[..known] && a < known
    requires a <= i <= |s| && (i < |s| ==> s[i] != '/') && (forall k :: a <= k < i ==> s[k] == '/')
    requires a <= j <= |t| && (j < |t| ==> t[j] != '/') && (forall k :: a <= k < j ==> t[k] == '/')
    ensures (i == j && i < known) || (i >= known && j >= known)
  {
    assert forall k :: 0 <= k < known ==> s[..known][k] == t[..known][k];
  }

  /** Inside the shared text the run ends at a slash that both have. */
  lemma KnownGoesOn(s: string, t: string, known: nat, i: nat, a: nat)
    requires 0 < known <= |s| && known <= |t| && s[..known] == t[..known] && s[known - 1] == '/'
    requires i <= a <= |s| && i < known && (forall k :: i <= k < a ==> s[k] != '/')
    ensures a < known && s[a] == t[a]
  {
    assert s[..known][a] == t[..known][a];
  }

  // -------------------------------------------------------------------------
  // transform_symlink

  /** The string a buffer holds: everything before the first NUL. */
  function CString(b: seq<char>): (s: string)
    ensures |s| <= |b| && b[..|s|] == s && '\0' !in s
    ensures |s| < |b| ==> b[|s|] == '\0'
  {
    if b == [] || b[0] == '\0' then "" else [b[0]] + CString(b[1..])
  }

  lemma {:induction false} CStringIs(b: seq<char>, s: string)
    requires |s| < |b| && b[..|s|] == s && b[|s|] == '\0' && '\0' !in s
    ensures CString(b) == s
  {
    if s != "" {
      assert b[0] == s[0] && b[1..][..|s| - 1] == s[1..];
      CStringIs(b[1..], s[1..]);
      assert s == [s[0]] + s[1..];
    }
  }

  predicate EndsInSlash(s: string) {
    s != "" && s[|s| - 1] == '/'
  }

  /** The link and its target are both spelled below the base directory. */
  predicate BelowBase(base: string, path: string, link: string) {
    EndsInSlash(base) && base <= link && base <= path
  }

  /** The path from the base on, or all of it, is free of "." and "..". */
  predicate PlainPath(base: string, path: string, link: string) {
    Plain(Comps(path)) || (BelowBase(base, path, link) && Plain(Comps(path[|base|..])))
  }

  lemma PlainUp(base: string, path: string, link: string, common: seq<string>, j: nat)
    requires PlainPath(base, path, link) && j <= |path| && Comps(path) == common + Comps(path[j..])
    requires BelowBase(base, path, link) ==> j >= |base|
    ensures Plain(Comps(path[j..]))
  {
    hide Comps;
    var up := Comps(path[j..]);
    if Plain(Comps(path)) {
      PlainSuffix(Comps(path), common, up);
    } else {
      PlainBelow(base, path[|base|..], path, common, j);
    }
  }

  lemma PlainBelow(base: string, rel: string, path: string, common: seq<string>, j: nat)
    requires EndsInSlash(base) && path == base + rel && |base| <= j <= |path| && Plain(Comps(rel))
    requires Comps(path) == common + Comps(path[j..])
    ensures Plain(Comps(path[j..]))
  {
    hide Comps, Plain;
    var up := Comps(path[j..]);
    assert path[j..] == rel[j - |base|..];
    CompsSplit(base, rel);
    CompsOfTail(rel, j - |base|);
    SameEnd(common, up, Comps(base), Comps(rel));
    PlainSuffix(Comps(rel), Comps(rel)[..|Comps(rel)| - |up|], up);
  }

  lemma PlainSuffix(all: seq<string>, front: seq<string>, back: seq<string>)
    requires Plain(all) && all == front + back
    ensures Plain(back)
  {
    forall k | 0 <= k < |back| ensures back[k] == all[|front| + k] { }
  }

  lemma SameEnd(a: seq<string>, b: seq<string>, c: seq<string>, d: seq<string>)
    requires a + b == c + d && |b| <= |d|
    ensures d == d[..|d| - |b|] + b
  {
    forall k | 0 <= k < |b| ensures b[k] == d[|d| - |b| + k] {
      assert (a + b)[|a| + k] == (c + d)[|a| + k];
    }
  }

  /** A link that has to become relative: it is spelled below the base, does not lead to or below
      itself, and there is room. */
  predicate MustRewrite(base: string, path: string, link: string, size: nat) {
    && BelowBase(base, path, link) && base[0] == '/'
    && !(Comps(path) <= Comps(link)) && 3 * |Comps(path)| + |link| + 2 <= size
  }

  /** Cutting the link at `i` leaves components in front that the path begins with, too. */
  predicate Shares(link: string, path: string, i: nat)
    requires i <= |link|
  {
    var n := |Comps(link)| - |Comps(link[i..])|;
    n >= 0 && Comps(link) == Comps(link)[..n] + Comps(link[i..]) && Comps(link)[..n] <= Comps(path)
  }

  /** The link was absolute, no less than the base was cut off, all of it shared with the path, and as
      many directories are climbed as the path has left below it. */
  predicate Rewritten(base: string, path: string, link: string, after: string, i: nat) {
    && base != "" && base[0] == '/' && link != "" && link[0] == '/'
    && |base| <= i <= |link| && Shares(link, path, i)
    && var ups := |Comps(path)| - (|Comps(link)| - |Comps(link[i..])|) - 1;
       ups >= 0 && after == UpText(ups) + Tail(link[i..], ups)
  }

  lemma IsRewritten(base: string, path: string, link: string, common: seq<string>, i: nat, j: nat)
    requires base != "" && base[0] == '/' && link != "" && link[0] == '/'
    requires |base| <= i <= |link| && j <= |path| && Comps(path[j..]) != []
    requires Comps(link) == common + Comps(link[i..]) && Comps(path) == common + Comps(path[j..])
    ensures var ups := |Comps(path[j..])| - 1;
      Rewritten(base, path, link, UpText(ups) + Tail(link[i..], ups), i)
  {
    hide Comps, UpText, Tail;
    assert Comps(link)[..|common|] == common;
    assert Comps(path)[..|common|] == common;
    assert Shares(link, path, i);
  }

  /** transform_symlink. The rewritten link leads where the old one did; a link spelled below the
      base becomes relative unless it leads to or below the link itself, or would not fit; nothing
      beyond `size` is touched. A link that shares too little with the path to make up the base stays
      as it is. */
  method TransformSymlink(base: string, path: string, buf: array<char>, size: nat)
    requires size <= buf.Length && |CString(buf[..])| < size
    modifies buf
    ensures |CString(buf[..])| < size
    ensures forall k :: size <= k < buf.Length ==> buf[k] == old(buf[k])
    ensures var link, after := CString(old(buf[..])), CString(buf[..]);
      && (PlainPath(base, path, link) ==> Target(DirOf(path), after) == Target(DirOf(path), link))
      && (MustRewrite(base, path, link, size) ==> after != "" && after[0] != '/')
      && (after == link || exists i :: Rewritten(base, path, link, after, i))
  {
    hide Rewritten, Comps, Follow, Ups, UpText, CString, Tail, Plain, PlainPath, DirOf, Target;
    var link := CString(buf[..]);
    if |link| == 0 || link[0] != '/' || |base| == 0 || base[0] != '/' {
      return;
    }
    ghost var known := if BelowBase(base, path, link) then |base| else 0;
    var i, j, common := StripCommon(link, path, known);
    if i < |base| {
      return;
    }
    var dotdots := CountComponents(path[j..]);
    if dotdots == 0 {
      assert Comps(path) == common;
      return;
    }
    dotdots := dotdots - 1;
    var llen := |link| - i;
    if dotdots * 3 + llen + 2 > size {
      assert dotdots < |Comps(path)|;
      return;
    }
    ghost var rest := link[i..];
    if PlainPath(base, path, link) {
      PlainUp(base, path, link, common, j);
      SameTarget(path, link, common, Comps(path[j..]), Comps(rest));
    }
    IsRewritten(base, path, link, common, i, j);
    Rewrite(buf, dotdots, i, llen);
    NewTarget(DirOf(path), dotdots, Tail(rest, dotdots), rest);
  }

  /** What stands behind the "../"s: the rest of the link or, if nothing is left, a dot if needed. */
  function Tail(rest: string, dotdots: nat): string {
    if rest != "" then rest else if dotdots == 0 then "." else ""
  }

  /** The end of transform_symlink: move the last `llen` characters of the link, from `l` on, behind
      the room for the "../"s, and fill that in. */
  method Rewrite(buf: array<char>, dotdots: nat, l: nat, llen: nat)
    requires dotdots * 3 + llen + 2 <= buf.Length && l + llen == |CString(buf[..])| < buf.Length
    modifies buf
    ensures CString(buf[..]) == UpText(dotdots) + Tail(CString(old(buf[..]))[l..], dotdots)
    ensures |CString(buf[..])| <= dotdots * 3 + llen + 1
    ensures forall k :: dotdots * 3 + llen + 2 <= k < buf.Length ==> buf[k] == old(buf[k])
  {
    ghost var tail := Tail(CString(buf[..])[l..], dotdots);
    MoveTail(buf, dotdots, l, llen);
    ghost var mid := buf[..];
    WriteUps(buf, dotdots);
    assert buf[3 * dotdots..3 * dotdots + |tail|] == mid[3 * dotdots..3 * dotdots + |tail|];
    NewText(buf[..], dotdots, tail);
  }

  method MoveTail(buf: array<char>, dotdots: nat, l: nat, llen: nat)
    requires dotdots * 3 + llen + 2 <= buf.Length && l + llen == |CString(buf[..])| < buf.Length
    modifies buf
    ensures var s := 3 * dotdots; var tail := Tail(CString(old(buf[..]))[l..], dotdots);
      && |tail| <= llen + 1 && '\0' !in tail && s + |tail| < buf.Length
      && buf[s..s + |tail|] == tail && buf[s + |tail|] == '\0'
    ensures forall k :: dotdots * 3 + llen + 2 <= k < buf.Length ==> buf[k] == old(buf[k])
  {
    hide CString;
    ghost var link := CString(buf[..]);
    var s := dotdots * 3;
    assert buf[..|link|] == link && buf[|link|] == '\0';
    if llen > 0 {
      MoveChars(buf, s, l, llen + 1);
      assert buf[s..s + llen] == link[l..];
    } else if dotdots == 0 {
      buf[s], buf[s + 1] := '.', '\0';
      assert buf[s..s + 1] == ".";
    } else {
      buf[s] := '\0';
    }
  }

  /** memmove within the buffer. */
  method MoveChars(buf: array<char>, to: nat, from: nat, n: nat)
    requires to + n <= buf.Length && from + n <= buf.Length
    modifies buf
    ensures buf[to..to + n] == old(buf[from..from + n])
    ensures forall k :: 0 <= k < buf.Length && !(to <= k < to + n) ==> buf[k] == old(buf[k])
  {
    forall k | to <= k < to + n {
      buf[k] := buf[k - to + from];
    }
  }

  /** The loop that writes "../" over the front of the buffer. */
  method WriteUps(buf: array<char>, dotdots: nat)
    requires 3 * dotdots <= buf.Length
    modifies buf
    ensures buf[..3 * dotdots] == UpText(dotdots)
    ensures forall k :: 3 * dotdots <= k < buf.Length ==> buf[k] == old(buf[k])
  {
    var n := 0;
    while n < dotdots
      invariant 0 <= n <= dotdots && buf[..3 * n] == UpText(n)
      invariant forall k :: 3 * n <= k < buf.Length ==> buf[k] == old(buf[k])
    {
      ghost var was := buf[..3 * n];
      buf[3 * n], buf[3 * n + 1], buf[3 * n + 2] := '.', '.', '/';
      UpTextStep(n);
      assert buf[..3 * n] == was;
      assert buf[..3 * (n + 1)] == buf[..3 * n] + "../";
      n := n + 1;
    }
  }

  lemma NewText(b: seq<char>, dotdots: nat, tail: string)
    requires 3 * dotdots + |tail| < |b| && '\0' !in tail
    requires b[..3 * dotdots] == UpText(dotdots) && b[3 * dotdots..3 * dotdots + |tail|] == tail &&
      b[3 * dotdots + |tail|] == '\0'
    ensures CString(b) == UpText(dotdots) + tail
  {
    hide UpText, CString;
    UpTextStep(dotdots);
    NoNulInUps(dotdots);
    assert b[..3 * dotdots + |tail|] == b[..3 * dotdots] + b[3 * dotdots..3 * dotdots + |tail|];
    CStringIs(b, UpText(dotdots) + tail);
  }

  lemma {:induction false} NoNulInUps(n: nat)
    ensures '\0' !in UpText(n) && (n > 0 ==> UpText(n)[0] == '.')
  {
    if n > 0 { NoNulInUps(n - 1); }
  }

  lemma NewTarget(dir: seq<string>, dotdots: nat, tail: string, rest: string)
    requires tail == Tail(rest, dotdots)
    requires rest != "" ==> rest[0] != '/'
    ensures var t := UpText(dotdots) + tail;
      && t != "" && t[0] != '/'
      && Target(dir, t) == Follow(dir, Ups(dotdots) + Comps(rest))
  {
    NoNulInUps(dotdots);
    UpTextComps(dotdots, tail);
    if rest == "" && dotdots == 0 {
      CompsWord(".", 1);
      assert "."[..1] == "." && "."[1..] == "";
      assert Ups(0) + ["."] == ["."] && Ups(0) + [] == [];
    }
  }
}
