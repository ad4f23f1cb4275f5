/** What a path string means: the names on it, followed from the root through the name table, lead to
    the node it was made for. */
module PathNames {

  import opened Options
  import opened InodeTree
  import opened TreeLocks
  import opened TreeProtocol
  import opened LockQueue
  import Symlinks

  predicate PlainName(s: string) {
    s != "" && '/' !in s
  }

  /** Following names from a node, as the kernel does. */
  function Resolve(names: Names, n: Ino, path: seq<string>): Option<Ino>
    decreases |path|
  {
    if path == [] then Some(n)
    else if Link(n, path[0]) in names then Resolve(names, names[Link(n, path[0])], path[1..])
    else None
  }

  /** Components behind one slash each; no components are the root. */
  function Spelled(path: seq<string>): string {
    if path == [] then "" else "/" + path[0] + Spelled(path[1..])
  }

  /** The string is spelled with single slashes, and its components lead to node `n` or, if `name` is
      given, to `n` and then end in that name. */
  predicate LeadsTo(names: Names, path: string, n: Ino, name: Option<string>) {
    var ps := Symlinks.Comps(path);
    && path == (if ps == [] then "/" else Spelled(ps))
    && match name
       case None => Resolve(names, ROOT, ps) == Some(n)
       case Some(s) => ps != [] && ps[|ps| - 1] == s && Resolve(names, ROOT, ps[..|ps| - 1]) == Some(n)
  }

  /** The names on the way from a node to the root are names, and so is the one to be added. */
  ghost predicate PlainWay(nodes: Nodes, n: Ino, name: Option<string>) {
    && (forall m {:trigger OnWay(nodes, n, m)} :: OnWay(nodes, n, m) && m in nodes && nodes[m].link.Some? ==>
          PlainName(nodes[m].link.value.name))
    && (name.Some? ==> PlainName(name.value))
  }

  // -------------------------------------------------------------------------
  // Strings

  lemma {:induction false} SlashBehind(s: string)
    ensures Symlinks.Comps(s + "/") == Symlinks.Comps(s)
    decreases |s|
  {
    if s == "" {
    } else if s[0] == '/' {
      assert (s + "/")[1..] == s[1..] + "/";
      SlashBehind(s[1..]);
    } else {
      var n := Symlinks.WordLen(s);
      WordOf(s);
      Symlinks.WordLenIs(s + "/", n);
      assert (s + "/")[..n] == s[..n] && (s + "/")[n..] == s[n..] + "/";
      SlashBehind(s[n..]);
    }
  }

  lemma {:induction false} WordOf(s: string)
    ensures var n := Symlinks.WordLen(s);
      (forall k :: 0 <= k < n ==> s[k] != '/') && (n == |s| || s[n] == '/') && (s != "" && s[0] != '/' ==> n > 0)
  {
    if s != "" && s[0] != '/' {
      WordOf(s[1..]);
      assert forall k :: 1 <= k < |s| ==> s[k] == s[1..][k - 1];
    }
  }

  /** One more name behind a path is one more component. */
  lemma OneMore(s: string, name: string)
    requires PlainName(name)
    ensures Symlinks.Comps(s + "/" + name) == Symlinks.Comps(s) + [name]
  {
    Symlinks.CompsSplit(s + "/", name);
    SlashBehind(s);
    Symlinks.CompsWord(name, |name|);
    assert name[..|name|] == name && name[|name|..] == "";
  }

  lemma {:induction false} SpelledSnoc(path: seq<string>, name: string)
    ensures Spelled(path + [name]) == Spelled(path) + "/" + name
  {
    if path == [] {
      assert ([] + [name])[1..] == [];
    } else {
      assert (path + [name])[1..] == path[1..] + [name];
      SpelledSnoc(path[1..], name);
      assert "/" + path[0] + (Spelled(path[1..]) + "/" + name) == ("/" + path[0] + Spelled(path[1..])) + "/" + name;
    }
  }

  lemma {:induction false} ResolveSnoc(names: Names, n: Ino, path: seq<string>, name: string)
    ensures var r := Resolve(names, n, path);
      Resolve(names, n, path + [name]) ==
        if r.Some? && Link(r.value, name) in names then Some(names[Link(r.value, name)]) else None
    decreases |path|
  {
    if path == [] {
      assert ([] + [name])[1..] == [];
    } else if Link(n, path[0]) in names {
      assert (path + [name])[1..] == path[1..] + [name];
      ResolveSnoc(names, names[Link(n, path[0])], path[1..], name);
    }
  }

  // -------------------------------------------------------------------------
  // Paths

  lemma {:induction false} DirsLead(nodes: Nodes, names: Names, n: Ino, c: seq<Ino>)
    requires Tree(nodes, names) && Chain(nodes, n, c) && c[|c| - 1] == ROOT && PlainWay(nodes, n, None)
    ensures var s := Dirs(nodes, c); var ps := Symlinks.Comps(s);
      s == Spelled(ps) && Resolve(names, ROOT, ps) == Some(n)
    decreases |c|
  {
    if n != ROOT {
      var l := nodes[n].link.value;
      assert LinkOk(nodes, names, n);
      OnWayIs(nodes, n, c, n);
      PlainAbove(nodes, n, c);
      DirsLead(nodes, names, l.parent, c[1..]);
      var up := Dirs(nodes, c[1..]);
      OneMore(up, l.name);
      SpelledSnoc(Symlinks.Comps(up), l.name);
      ResolveSnoc(names, ROOT, Symlinks.Comps(up), l.name);
    }
  }

  lemma PlainAbove(nodes: Nodes, n: Ino, c: seq<Ino>)
    requires Chain(nodes, n, c) && nodes[n].link.Some? && PlainWay(nodes, n, None)
    ensures PlainWay(nodes, nodes[n].link.value.parent, None)
  {
    var p := nodes[n].link.value.parent;
    forall m | OnWay(nodes, p, m) ensures OnWay(nodes, n, m) {
      OnWayIs(nodes, p, c[1..], m);
      OnWayIs(nodes, n, c, m);
    }
  }

  /** The path string given out for a node leads to it. */
  lemma PathLeads(nodes: Nodes, names: Names, n: Ino, c: seq<Ino>, name: Option<string>)
    requires Tree(nodes, names) && Chain(nodes, n, c) && c[|c| - 1] == ROOT && PlainWay(nodes, n, name)
    ensures LeadsTo(names, PathText(nodes, c, name), n, name)
  {
    var dirs := Dirs(nodes, c);
    DirsLead(nodes, names, n, c);
    TextOf(nodes, c, name);
    hide *;
    if name.Some? {
      NameLeads(names, dirs, n, name.value);
    } else {
      DirLeads(names, dirs, n);
    }
  }

  lemma TextOf(nodes: Nodes, c: seq<Ino>, name: Option<string>)
    ensures var dirs := Dirs(nodes, c);
      PathText(nodes, c, name) == match name
        case None => if dirs == "" then "/" else dirs
        case Some(s) => dirs + "/" + s
  {
    hide Dirs;
    var dirs := Dirs(nodes, c);
    assert dirs + "" == dirs;
    assert name.Some? ==> dirs + ("/" + name.value) == dirs + "/" + name.value;
  }

  lemma DirLeads(names: Names, dirs: string, n: Ino)
    requires var ps := Symlinks.Comps(dirs); dirs == Spelled(ps) && Resolve(names, ROOT, ps) == Some(n)
    ensures LeadsTo(names, if dirs == "" then "/" else dirs, n, None)
  {
    hide Resolve;
    assert Symlinks.Comps("/") == Symlinks.Comps("") by { Symlinks.CompsSlash("/"); }
  }

  lemma NameLeads(names: Names, dirs: string, n: Ino, name: string)
    requires var ps := Symlinks.Comps(dirs); dirs == Spelled(ps) && Resolve(names, ROOT, ps) == Some(n)
    requires PlainName(name)
    ensures LeadsTo(names, dirs + "/" + name, n, Some(name))
  {
    hide Resolve, Symlinks.Comps;
    var ps := Symlinks.Comps(dirs);
    OneMore(dirs, name);
    SpelledSnoc(ps, name);
    assert (ps + [name])[..|ps|] == ps;
  }

  /** ... and goes on leading to it for as long as the path is held. */
  lemma HeldLeads(nodes: Nodes, names: Names, held: Held, h: HoldId)
    requires Tree(nodes, names) && LocksOk(nodes, held) && h in held
    requires PlainWay(nodes, held[h].target, held[h].name)
    ensures LeadsTo(names, held[h].path, held[h].target, held[h].name)
  {
    assert HoldOk(nodes, held[h]);
    PathLeads(nodes, names, held[h].target, held[h].chain, held[h].name);
  }

  /** The string is the path of the request, if the names on the way are names. */
  ghost predicate RightPath(nodes: Nodes, names: Names, p: PathReq, path: string) {
    PlainWay(nodes, p.nodeid, p.name) ==> LeadsTo(names, path, p.nodeid, p.name)
  }

  lemma HeldRight(nodes: Nodes, names: Names, held: Held, h: HoldId, p: PathReq)
    requires Tree(nodes, names) && LocksOk(nodes, held)
    requires h in held && held[h].target == p.nodeid && held[h].name == p.name
    ensures RightPath(nodes, names, p, held[h].path)
  {
    if PlainWay(nodes, p.nodeid, p.name) {
      HeldLeads(nodes, names, held, h);
    }
  }
}
