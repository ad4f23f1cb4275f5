/** fuse_opt_parse without templates and without a callback: it collects "-o" groups, passes the
    other arguments on, and puts one rebuilt group in front. */
module ArgParser {

  import opened Options
  import opened OptionGroups

  // -------------------------------------------------------------------------
  // What parsing does

  // The fields of fuse_opt_context that change.
  datatype State = State(out: seq<string>, opts: Option<string>, nonopt: nat)

  predicate IsOption(a: string) {
    a != "" && a[0] == '-'
  }

  predicate IsGroup(a: string) {
    IsOption(a) && |a| > 1 && a[1] == 'o'
  }

  /** The loop of opt_parse, over the arguments still to come; None when one is missing after "-o". */
  function Run(args: seq<string>, st: State): Option<State>
    decreases |args|
  {
    if args == [] then Some(st)
    else
      var a := args[0];
      if st.nonopt != 0 || !IsOption(a) then Run(args[1..], st.(out := st.out + [a]))
      else if IsGroup(a) then
        if |a| > 2 then Run(args[1..], st.(opts := AddAll(st.opts, ReadGroup(a[2..]))))
        else if |args| == 1 then None
        else Run(args[2..], st.(opts := AddAll(st.opts, ReadGroup(args[1]))))
      else if a == "--" then Run(args[1..], st.(out := st.out + [a], nonopt := |st.out| + 1))
      else Run(args[1..], st.(out := st.out + [a]))
  }

  function Insert(out: seq<string>, pos: nat, arg: string): seq<string>
    requires pos <= |out|
  {
    out[..pos] + [arg] + out[pos..]
  }

  /** The end of opt_parse. */
  function Finish(st: State): seq<string>
    requires st.out != []
  {
    var o := if st.opts.Some? then Insert(Insert(st.out, 1, "-o"), 2, st.opts.value) else st.out;
    if st.nonopt != 0 && st.nonopt == |o| && o[|o| - 1] == "--" then o[..|o| - 1] else o
  }

  function Parse(argv: seq<string>): Option<seq<string>> {
    if argv == [] then Some([])
    else
      var r := Run(argv[1..], State([argv[0]], None, 0));
      if r.Some? && r.value.out != [] then Some(Finish(r.value)) else None
  }

  // -------------------------------------------------------------------------
  // What a command line says

  /** An argument that is passed on as it is before a "--". */
  predicate Passive(a: string) {
    !IsOption(a) || (!IsGroup(a) && a != "--")
  }

  // One thing said before the separator: an argument, or a group in one of its two spellings.
  datatype Item = Passed(arg: string) | Glued(text: string) | Apart(text: string)

  predicate Proper(i: Item) {
    (i.Passed? ==> Passive(i.arg)) && (i.Glued? ==> i.text != "")
  }

  predicate AllProper(items: seq<Item>) {
    forall k :: 0 <= k < |items| ==> Proper(items[k])
  }

  function Spelling(i: Item): seq<string> {
    match i
    case Passed(a) => [a]
    case Glued(t) => ["-o" + t]
    case Apart(t) => ["-o", t]
  }

  /** The arguments that spell these items. */
  function Words(items: seq<Item>): seq<string> {
    if items == [] then [] else Spelling(items[0]) + Words(items[1..])
  }

  /** The texts of the groups, in order. */
  function Texts(items: seq<Item>): seq<string> {
    if items == [] then [] else (if items[0].Passed? then [] else [items[0].text]) + Texts(items[1..])
  }

  /** The arguments that are not groups, in order. */
  function Others(items: seq<Item>): seq<string> {
    if items == [] then [] else (if items[0].Passed? then [items[0].arg] else []) + Others(items[1..])
  }

  /** The options of all groups, in order. */
  function Collected(texts: seq<string>): seq<string> {
    if texts == [] then [] else ReadGroup(texts[0]) + Collected(texts[1..])
  }

  /** The arguments are these items and then either nothing, or a "--" and whatever follows it. */
  predicate Says(args: seq<string>, items: seq<Item>, rest: seq<string>) {
    AllProper(items) && args == Words(items) + rest && (rest == [] || rest[0] == "--")
  }

  /** The arguments end with a "-o" whose text is missing. */
  ghost predicate TextMissing(args: seq<string>) {
    exists items :: AllProper(items) && args == Words(items) + ["-o"]
  }

  /** What parsing leaves of a command line: the program, one group in front that reads as all options
      that were given, everything else in order; a "--" goes only if nothing follows it and there
      was no group. */
  predicate Left(out: seq<string>, program: string, items: seq<Item>, rest: seq<string>) {
    if Texts(items) == [] then
      out == [program] + Others(items) + if rest == ["--"] then [] else rest
    else
      && |out| >= 3
      && out == [program, "-o", out[2]] + Others(items) + rest
      && ReadGroup(out[2]) == Kept(Collected(Texts(items)))
  }

  /** Every command line says something, or lacks the text of its last group. */
  lemma {:induction false} SaysSomething(args: seq<string>)
    ensures (exists items, rest :: Says(args, items, rest)) <==> !TextMissing(args)
  {
    var items, rest := ReadItems(args);
    if rest == ["-o"] {
      assert TextMissing(args);
    } else {
      assert Says(args, items, rest);
    }
    if TextMissing(args) && exists more, tail :: Says(args, more, tail) {
      var less :| AllProper(less) && args == Words(less) + ["-o"];
      var more, tail :| Says(args, more, tail);
      var st := State(["-"], None, 0);
      RunMissing(less, st);
      RunItems(more, tail, st);
    }
  }

  /** The items of a command line. */
  lemma {:induction false} ReadItems(args: seq<string>) returns (items: seq<Item>, rest: seq<string>)
    ensures AllProper(items) && args == Words(items) + rest
    ensures rest == [] || rest[0] == "--" || rest == ["-o"]
    decreases |args|
  {
    if args == [] || args[0] == "--" || args == ["-o"] {
      items, rest := [], args;
    } else {
      hide Passive, IsOption, IsGroup;
      var i := FirstItem(args);
      var n := |Spelling(i)|;
      var more;
      more, rest := ReadItems(args[n..]);
      items := [i] + more;
      assert items[1..] == more;
    }
  }

  lemma FirstItem(args: seq<string>) returns (i: Item)
    requires args != [] && args[0] != "--" && args != ["-o"]
    ensures Proper(i) && 0 < |Spelling(i)| <= |args| && args == Spelling(i) + args[|Spelling(i)|..]
  {
    var a := args[0];
    if Passive(a) {
      i := Passed(a);
    } else if |a| > 2 {
      i := Glued(a[2..]);
      assert a == "-o" + a[2..];
    } else {
      assert a == "-o";
      assert |args| == 1 ==> args == ["-o"];
      i := Apart(args[1]);
    }
  }

  lemma RunItem(i: Item, more: seq<string>, st: State)
    requires Proper(i) && st.nonopt == 0
    ensures Run(Spelling(i) + more, st) == Run(more,
      if i.Passed? then st.(out := st.out + [i.arg]) else st.(opts := AddAll(st.opts, ReadGroup(i.text))))
  {
    var args := Spelling(i) + more;
    match i
    case Passed(a) => assert args[1..] == more;
    case Glued(t) =>
      assert args[1..] == more && args[0] == "-o" + t && args[0][2..] == t;
    case Apart(t) => assert args[2..] == more && args[1] == t;
  }

  lemma {:induction false} RunAfterSeparator(args: seq<string>, st: State)
    requires st.nonopt != 0
    ensures Run(args, st) == Some(st.(out := st.out + args))
    decreases |args|
  {
    if args == [] {
      assert st.out + args == st.out;
    } else {
      RunAfterSeparator(args[1..], st.(out := st.out + [args[0]]));
      assert st.out + [args[0]] + args[1..] == st.out + args;
    }
  }

  lemma {:induction false} RunMissing(items: seq<Item>, st: State)
    requires AllProper(items) && st.nonopt == 0
    ensures Run(Words(items) + ["-o"], st) == None
    decreases |items|
  {
    if items == [] {
      assert Words(items) + ["-o"] == ["-o"];
    } else {
      var i, more := items[0], Words(items[1..]) + ["-o"];
      assert Words(items) + ["-o"] == Spelling(i) + more;
      RunItem(i, more, st);
      RunMissing(items[1..],
        if i.Passed? then st.(out := st.out + [i.arg]) else st.(opts := AddAll(st.opts, ReadGroup(i.text))));
    }
  }

  /** The loop passes on what is no group, and collects the options of the groups behind those it has. */
  lemma {:induction false} RunItems(items: seq<Item>, rest: seq<string>, st: State)
    requires AllProper(items) && (rest == [] || rest[0] == "--") && st.nonopt == 0
    ensures Run(Words(items) + rest, st) == Some(After(items, rest, st))
    decreases |items|
  {
    if items == [] {
      assert Words(items) + rest == rest && st.out + [] == st.out;
      RunRest(rest, st);
    } else {
      hide Run, AddAll, ReadGroup;
      var i, more := items[0], Words(items[1..]) + rest;
      var next :=
        if i.Passed? then st.(out := st.out + [i.arg]) else st.(opts := AddAll(st.opts, ReadGroup(i.text)));
      assert Words(items) + rest == Spelling(i) + more;
      RunItem(i, more, st);
      RunItems(items[1..], rest, next);
      AfterItem(items, rest, st);
    }
  }

  /** What the loop makes of these items and what follows them. */
  function After(items: seq<Item>, rest: seq<string>, st: State): State {
    State(st.out + Others(items) + rest, AddAll(st.opts, Collected(Texts(items))),
          if rest == [] then 0 else |st.out| + |Others(items)| + 1)
  }

  lemma RunRest(rest: seq<string>, st: State)
    requires (rest == [] || rest[0] == "--") && st.nonopt == 0
    ensures Run(rest, st) == Some(After([], rest, st))
  {
    assert st.out + Others([]) == st.out;
    assert AddAll(st.opts, Collected(Texts([]))) == st.opts;
    if rest == [] {
      assert st.out + rest == st.out;
    } else {
      RunAfterSeparator(rest[1..], st.(out := st.out + [rest[0]], nonopt := |st.out| + 1));
      assert st.out + [rest[0]] + rest[1..] == st.out + rest;
    }
  }

  lemma AfterItem(items: seq<Item>, rest: seq<string>, st: State)
    requires items != []
    ensures var i := items[0];
      After(items, rest, st) == After(items[1..], rest,
        if i.Passed? then st.(out := st.out + [i.arg]) else st.(opts := AddAll(st.opts, ReadGroup(i.text))))
  {
    var i, tail := items[0], Texts(items[1..]);
    if i.Passed? {
      assert Texts(items) == tail;
      assert st.out + [i.arg] + Others(items[1..]) == st.out + Others(items);
    } else {
      assert Texts(items)[1..] == tail && Others(items) == Others(items[1..]);
      AddAllConcat(st.opts, ReadGroup(i.text), Collected(tail));
    }
  }

  lemma {:induction false} CollectedShape(texts: seq<string>)
    ensures AllNoNul(Collected(texts)) && (Collected(texts) == [] <==> texts == [])
  {
    if texts != [] {
      ReadShape(texts[0], "");
      CollectedShape(texts[1..]);
    }
  }

  /** Parsing keeps what the command line says. */
  lemma ParseSays(argv: seq<string>, items: seq<Item>, rest: seq<string>)
    requires argv != [] && Says(argv[1..], items, rest)
    ensures Parse(argv).Some? && Left(Parse(argv).value, argv[0], items, rest)
  {
    hide Run;
    var start := State([argv[0]], None, 0);
    RunItems(items, rest, start);
    FinishSays(argv[0], items, rest);
  }

  lemma FinishSays(program: string, items: seq<Item>, rest: seq<string>)
    requires rest == [] || rest[0] == "--"
    ensures var st := After(items, rest, State([program], None, 0));
      st.out != [] && Left(Finish(st), program, items, rest)
  {
    CollectedShape(Texts(items));
    if Texts(items) == [] {
      FinishWithout(program, items, rest);
    } else {
      FinishWithGroup(program, items, rest);
    }
  }

  lemma FinishWithout(program: string, items: seq<Item>, rest: seq<string>)
    requires (rest == [] || rest[0] == "--") && Texts(items) == []
    ensures Left(Finish(After(items, rest, State([program], None, 0))), program, items, rest)
  {
    hide Others, ReadGroup, Kept;
    var st := After(items, rest, State([program], None, 0));
    assert st.opts == None;
    assert |rest| == 1 ==> rest == [rest[0]];
    assert rest == ["--"] ==> st.out[..|st.out| - 1] == [program] + Others(items);
  }

  lemma FinishWithGroup(program: string, items: seq<Item>, rest: seq<string>)
    requires (rest == [] || rest[0] == "--") && Texts(items) != []
    ensures Left(Finish(After(items, rest, State([program], None, 0))), program, items, rest)
  {
    hide AddAll, ReadGroup, Kept, Join, Collected, Texts, Others, Finish;
    var all, st := Collected(Texts(items)), After(items, rest, State([program], None, 0));
    assert st.out[1..] == Others(items) + rest;
    CollectedShape(Texts(items));
    GroupRoundTrip(all);
    GroupInFront(st);
    var out := Finish(st);
    assert out[2] == st.opts.value;
    assert out == [program, "-o", out[2]] + Others(items) + rest;
  }

  lemma GroupInFront(st: State)
    requires st.out != [] && st.opts.Some? && st.nonopt <= |st.out|
    ensures Finish(st) == [st.out[0], "-o", st.opts.value] + st.out[1..]
  {
    var g, rest := st.opts.value, st.out[1..];
    var one := Insert(st.out, 1, "-o");
    assert one == [st.out[0], "-o"] + rest;
    assert one[..2] == [st.out[0], "-o"] && one[2..] == rest;
    assert Insert(one, 2, g) == [st.out[0], "-o", g] + rest;
  }

  lemma ParseMeans(argv: seq<string>)
    requires argv != []
    ensures Parse(argv).Some? <==> !TextMissing(argv[1..])
    ensures forall items, rest | Says(argv[1..], items, rest) ::
      Parse(argv).Some? && Left(Parse(argv).value, argv[0], items, rest)
  {
    forall items, rest | Says(argv[1..], items, rest)
      ensures Parse(argv).Some? && Left(Parse(argv).value, argv[0], items, rest)
    {
      ParseSays(argv, items, rest);
    }
    SaysSomething(argv[1..]);
    if TextMissing(argv[1..]) {
      ParseMissing(argv);
    }
  }

  lemma ParseMissing(argv: seq<string>)
    requires argv != [] && TextMissing(argv[1..])
    ensures Parse(argv) == None
  {
    var items :| AllProper(items) && argv[1..] == Words(items) + ["-o"];
    RunMissing(items, State([argv[0]], None, 0));
  }

  // -------------------------------------------------------------------------
  // The parser object

  /** What a C string function sees of a buffer with a NUL at `d`. */
  lemma {:induction false} CutAt(b: string, d: nat)
    requires d < |b| && b[d] == '\0'
    ensures Cut(b) == Cut(b[..d])
  {
    if d > 0 && b[0] != '\0' {
      assert b[1..][..d - 1] == b[..d][1..];
      CutAt(b[1..], d - 1);
    }
  }

  class Context {
    const argv: seq<string>
    var argctr: nat
    var outargs: seq<string>
    var opts: Option<string>
    var nonopt: nat

    constructor (argv: seq<string>)
      ensures this.argv == argv && argctr == 0 && outargs == [] && opts == None && nonopt == 0
    {
      this.argv := argv;
      argctr, outargs, opts, nonopt := 0, [], None, 0;
    }

    function Current(): State
      reads this
    {
      State(outargs, opts, nonopt)
    }

    /** process_real_option_group: split and unescape in place. The write cursor never passes the
        read cursor, so nothing unread is overwritten. */
    method ProcessRealOptionGroup(buf: array<char>)
      requires |Cut(buf[..])| < buf.Length
      modifies this`opts, buf
      ensures opts == AddAll(old(opts), ReadGroup(Cut(old(buf[..]))))
    {
      hide ReadFrom;
      ghost var g := Cut(buf[..]);
      ghost var all := AddAll(opts, ReadGroup(g));
      var s, d, end := 0, 0, false;
      assert buf[..0] == "" && g[0..] == g;
      while !end
        invariant d <= s && (!end ==> s <= |g|) && (end ==> opts == all)
        invariant !end ==> forall k :: s <= k < buf.Length ==> buf[k] == old(buf[k])
        invariant !end ==> AddAll(opts, ReadFrom(g[s..], buf[..d])) == all
        decreases !end, |g| - s
      {
        ghost var cur := buf[..d];
        assert s < |g| ==> buf[s] == g[s] && g[s] != '\0' && g[s..][0] == g[s] && g[s..][1..] == g[s + 1..];
        if buf[s] == '\0' {
          end := true;
        }
        if buf[s] == ',' || end {
          ReadEnd(g[s..], cur);
          TakeOption(buf, d);
          d := 0;
          assert buf[..0] == "";
          s := s + 1;
        } else {
          s, d := ReadChar(buf, s, d, g);
        }
      }
    }

    /** The option read so far is terminated and added. */
    method TakeOption(buf: array<char>, d: nat)
      requires d < buf.Length
      modifies this`opts, buf
      ensures opts == Some(AddOpt(old(opts), Cut(old(buf[..d])), true))
      ensures forall k :: 0 <= k < buf.Length && k != d ==> buf[k] == old(buf[k])
    {
      buf[d] := '\0';
      assert buf[..d] == old(buf[..d]);
      CutAt(buf[..], d);
      opts := Some(AddOpt(opts, Cut(buf[..]), true));
    }

    /** One character, escaped or not, of process_real_option_group. */
    method ReadChar(buf: array<char>, s0: nat, d0: nat, ghost g: string) returns (s: nat, d: nat)
      requires d0 <= s0 < |g| < buf.Length && NoNul(g) && g[s0] != ','
      requires (forall k :: s0 <= k < |g| ==> buf[k] == g[k]) && buf[|g|] == '\0'
      modifies buf
      ensures s0 < s <= |g| && d == d0 + 1 && d <= s
      ensures forall k :: s <= k < buf.Length ==> buf[k] == old(buf[k])
      ensures ReadFrom(g[s0..], old(buf[..d0])) == ReadFrom(g[s..], buf[..d])
    {
      hide ReadFrom;
      ghost var cur, t := buf[..d0], g[s0..];
      s, d := s0, d0;
      assert forall k :: 0 <= k < |t| ==> t[k] == buf[s0 + k];
      ReadStep(t, cur);
      if buf[s] == '\\' && buf[s + 1] != '\0' {
        s := s + 1;
        if '0' <= buf[s] <= '3' && '0' <= buf[s + 1] <= '7' && '0' <= buf[s + 2] <= '7' {
          assert Octal(t);
          buf[d] := ((buf[s] as int - '0' as int) * 64 + (buf[s + 1] as int - '0' as int) * 8
                     + (buf[s + 2] as int - '0' as int)) as char;
          s := s + 2;
          assert t[4..] == g[s + 1..];
        } else {
          assert !Octal(t);
          buf[d] := buf[s];
          assert t[2..] == g[s + 1..];
        }
      } else {
        buf[d] := buf[s];
        assert t[1..] == g[s + 1..];
      }
      d := d + 1;
      assert buf[..d] == cur + [buf[d - 1]];
      s := s + 1;
    }

    /** process_option_group works on a copy. */
    method ProcessOptionGroup(group: string)
      requires NoNul(group)
      modifies this`opts
      ensures opts == AddAll(old(opts), ReadGroup(group))
    {
      var copy := new char[|group| + 1](k requires 0 <= k <= |group| => if k < |group| then group[k] else '\0');
      assert copy[..|group|] == group;
      CutAt(copy[..], |group|);
      CutWhole(group);
      assert copy[..][..|group|] == group;
      ProcessRealOptionGroup(copy);
    }

    /** process_one; false when an argument is missing. */
    method ProcessOne(arg: string) returns (ok: bool)
      requires argctr < |argv| && arg == argv[argctr] && forall i :: 0 <= i < |argv| ==> NoNul(argv[i])
      modifies this`argctr, this`outargs, this`opts, this`nonopt
      ensures old(argctr) <= argctr < |argv| && |outargs| >= |old(outargs)|
      ensures var before := Run(argv[old(argctr)..], old(Current()));
        if ok then before == Run(argv[argctr + 1..], Current()) else before == None
      ensures !ok <==> old(nonopt) == 0 && arg == "-o" && old(argctr) + 1 == |argv|
      ensures ok && old(nonopt) == 0 && IsGroup(arg) ==>
        && argctr == old(argctr) + (if |arg| > 2 then 0 else 1)
        && opts == AddAll(old(opts), ReadGroup(if |arg| > 2 then arg[2..] else argv[argctr]))
        && outargs == old(outargs) && nonopt == 0
      ensures !(old(nonopt) == 0 && IsGroup(arg)) ==>
        && argctr == old(argctr) && opts == old(opts) && outargs == old(outargs) + [arg]
        && nonopt == if old(nonopt) == 0 && arg == "--" then |outargs| else old(nonopt)
    {
      ghost var args := argv[argctr..];
      assert args[0] == arg && args[1..] == argv[argctr + 1..];
      if nonopt != 0 || !(|arg| > 0 && arg[0] == '-') {
        outargs := outargs + [arg];
      } else if |arg| > 1 && arg[1] == 'o' {
        if |arg| > 2 {
          ProcessOptionGroup(arg[2..]);
        } else {
          if argctr + 1 >= |argv| {
            return false;
          }
          argctr := argctr + 1;
          assert args[1] == argv[argctr] && args[2..] == argv[argctr + 1..];
          ProcessOptionGroup(argv[argctr]);
        }
      } else if |arg| == 2 && arg[1] == '-' {
        outargs := outargs + [arg];
        nonopt := |outargs|;
      } else {
        outargs := outargs + [arg];
      }
      return true;
    }

    /** opt_parse, for a non-empty argument vector. */
    method OptParse() returns (ok: bool)
      requires argctr == 0 && outargs == [] && opts == None && nonopt == 0
      requires argv != [] && forall i :: 0 <= i < |argv| ==> NoNul(argv[i])
      modifies this
      ensures Parse(argv) == if ok then Some(outargs) else None
      ensures ok <==> !TextMissing(argv[1..])
      ensures forall items, rest :: Says(argv[1..], items, rest) ==> Left(outargs, argv[0], items, rest)
    {
      outargs := outargs + [argv[0]];
      argctr := 1;
      assert Current() == State([argv[0]], None, 0);
      ParseMeans(argv);
      while argctr < |argv|
        invariant 1 <= argctr <= |argv| && outargs != []
        invariant Run(argv[argctr..], Current()) == Run(argv[1..], State([argv[0]], None, 0))
        decreases |argv| - argctr
      {
        ok := ProcessOne(argv[argctr]);
        if !ok {
          return false;
        }
        argctr := argctr + 1;
      }
      ghost var st := Current();
      assert argv[argctr..] == [];
      if opts.Some? {
        InsertArg(1, "-o");
        InsertArg(2, opts.value);
      }
      if nonopt != 0 && nonopt == |outargs| && outargs[|outargs| - 1] == "--" {
        outargs := outargs[..|outargs| - 1];
      }
      assert outargs == Finish(st);
      return true;
    }

    /** fuse_opt_insert_arg: append, then move the new argument to its place. */
    method InsertArg(pos: nat, arg: string)
      requires pos <= |outargs|
      modifies this`outargs
      ensures outargs == Insert(old(outargs), pos, arg)
    {
      outargs := outargs + [arg];
      if pos != |outargs| - 1 {
        var newarg := outargs[|outargs| - 1];
        outargs := outargs[..pos] + [newarg] + outargs[pos..|outargs| - 1];
      }
    }
  }

  // -------------------------------------------------------------------------
  // Parsing is idempotent

  /** What the loop leaves: nothing but passive arguments before the separator. */
  predicate Settled(st: State) {
    && st.out != []
    && (forall k :: 1 <= k < |st.out| && (st.nonopt == 0 || k < st.nonopt - 1) ==> Passive(st.out[k]))
    && (st.nonopt != 0 ==> 2 <= st.nonopt <= |st.out| && st.out[st.nonopt - 1] == "--")
  }

  predicate AllArgsNoNul(args: seq<string>) {
    forall k :: 0 <= k < |args| ==> NoNul(args[k])
  }

  /** A group made by adding options one by one. */
  ghost predicate Built(g: Option<string>) {
    exists os :: AllNoNul(os) && g == AddAll(None, os)
  }

  lemma BuiltMore(g: Option<string>, text: string)
    requires Built(g)
    ensures Built(AddAll(g, ReadGroup(text)))
  {
    var os :| AllNoNul(os) && g == AddAll(None, os);
    ReadShape(text, "");
    AddAllConcat(None, os, ReadGroup(text));
    assert AllNoNul(os + ReadGroup(text));
  }

  lemma BuiltStable(g: string)
    requires Built(Some(g))
    ensures AddAll(None, ReadGroup(g)) == Some(g)
  {
    var os :| AllNoNul(os) && Some(g) == AddAll(None, os);
    GroupStable(os);
  }

  lemma {:induction false} RunSettles(args: seq<string>, st: State)
    requires Settled(st) && Built(st.opts) && AllArgsNoNul(args)
    ensures Run(args, st).Some? ==> Settled(Run(args, st).value) && Built(Run(args, st).value.opts)
    decreases |args|
  {
    if args == [] {
    } else {
      var a := args[0];
      if st.nonopt != 0 || !IsOption(a) {
        RunSettles(args[1..], st.(out := st.out + [a]));
      } else if IsGroup(a) {
        if |a| > 2 {
          BuiltMore(st.opts, a[2..]);
          RunSettles(args[1..], st.(opts := AddAll(st.opts, ReadGroup(a[2..]))));
        } else if |args| > 1 {
          BuiltMore(st.opts, args[1]);
          RunSettles(args[2..], st.(opts := AddAll(st.opts, ReadGroup(args[1]))));
        }
      } else if a == "--" {
        RunSettles(args[1..], st.(out := st.out + [a], nonopt := |st.out| + 1));
      } else {
        RunSettles(args[1..], st.(out := st.out + [a]));
      }
    }
  }

  /** Running over the arguments a settled state has kept reproduces that state. */
  lemma {:induction false} Replay(st: State, k: nat)
    requires Settled(st) && 1 <= k <= |st.out|
    ensures var nonopt := if st.nonopt != 0 && st.nonopt <= k then st.nonopt else 0;
      Run(st.out[k..], State(st.out[..k], st.opts, nonopt)) == Some(st)
    decreases |st.out| - k
  {
    if k == |st.out| {
      assert st.out[..k] == st.out && st.out[k..] == [];
    } else {
      assert st.out[k..][0] == st.out[k] && st.out[k..][1..] == st.out[k + 1..];
      assert st.out[..k] + [st.out[k]] == st.out[..k + 1];
      Replay(st, k + 1);
    }
  }

  lemma RunGroup(st: State, g: string, rest: seq<string>)
    requires st.nonopt == 0 && st.opts == None && Built(Some(g))
    ensures Run(["-o", g] + rest, st) == Run(rest, st.(opts := Some(g)))
  {
    BuiltStable(g);
    var args := ["-o", g] + rest;
    assert args[0] == "-o" && args[1] == g && args[2..] == rest;
  }

  /** Parsing what a successful parse produced changes nothing. */
  lemma ParseIdempotent(argv: seq<string>)
    requires AllArgsNoNul(argv) && Parse(argv).Some?
    ensures Parse(Parse(argv).value) == Parse(argv)
  {
    if argv != [] {
      var start := State([argv[0]], None, 0);
      assert Built(None) by { assert AllNoNul([]) && AddAll(None, []) == None; }
      RunSettles(argv[1..], start);
      ReparseState(Run(argv[1..], start).value);
    }
  }

  lemma ReparseState(st: State)
    requires Settled(st) && Built(st.opts)
    ensures Parse(Finish(st)) == Some(Finish(st))
  {
    var start := State([st.out[0]], None, 0);
    assert st.out[..1] == [st.out[0]];
    if st.opts.Some? {
      ReparseGroup(st);
    } else if st.nonopt != 0 && st.nonopt == |st.out| {
      ReparseLess(st);
    } else {
      Replay(st, 1);
    }
  }

  lemma ReparseGroup(st: State)
    requires Settled(st) && Built(st.opts) && st.opts.Some?
    ensures Parse(Finish(st)) == Some(Finish(st))
  {
    hide Run, Settled, Finish, Built;
    SettledShape(st);
    var out, start, g := Finish(st), State([st.out[0]], None, 0), st.opts.value;
    assert st.out[..1] == [st.out[0]];
    GroupInFront(st);
    assert out[1..] == ["-o", g] + st.out[1..];
    RunGroup(start, g, st.out[1..]);
    Replay(st, 1);
  }

  lemma SettledShape(st: State)
    requires Settled(st)
    ensures st.out != [] && (st.nonopt != 0 ==> 2 <= st.nonopt <= |st.out|)
  {
  }

  /** A "--" that was removed is not missed. */
  lemma ReparseLess(st: State)
    requires Settled(st) && st.opts == None && st.nonopt != 0 && st.nonopt == |st.out|
    ensures Parse(Finish(st)) == Some(Finish(st))
  {
    hide Run;
    var out := Finish(st);
    assert out == st.out[..|st.out| - 1];
    assert out[..1] == [st.out[0]];
    Replay(State(out, None, 0), 1);
  }
}
