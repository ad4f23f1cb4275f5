/** The option parser of fuse_opt.c: building a comma-separated group with escapes, reading a group
    in place, and normalising an argument vector. */
module OptionGroups {

  import opened Options

  predicate NoNul(s: string) {
    '\0' !in s
  }

  // -------------------------------------------------------------------------
  // Writing a group

  function EscapeChar(c: char): string {
    if c == ',' || c == '\\' then ['\\', c] else [c]
  }

  function Escape(s: string): string {
    if s == "" then "" else EscapeChar(s[0]) + Escape(s[1..])
  }

  /** The group after one more option; an empty group gets no comma. */
  function AddOpt(group: Option<string>, opt: string, esc: bool): string {
    (if group.Some? && group.value != "" then group.value + "," else "") + (if esc then Escape(opt) else opt)
  }

  lemma {:induction false} EscapeBounds(s: string)
    ensures |s| <= |Escape(s)| <= 2 * |s|
    ensures NoNul(s) ==> NoNul(Escape(s))
    ensures Escape(s) == "" <==> s == ""
  {
    if s != "" { EscapeBounds(s[1..]); }
  }

  lemma {:induction false} EscapeSnoc(s: string, c: char)
    ensures Escape(s + [c]) == Escape(s) + EscapeChar(c)
  {
    if s == "" {
      assert s + [c] == [c] && [c][1..] == "";
    } else {
      assert (s + [c])[1..] == s[1..] + [c];
      EscapeSnoc(s[1..], c);
      assert EscapeChar(s[0]) + (Escape(s[1..]) + EscapeChar(c)) == (EscapeChar(s[0]) + Escape(s[1..])) + EscapeChar(c);
    }
  }

  /** add_opt_common: write the option, escaped or not, behind the group in a buffer of
      oldlen + 1 + 2 * len + 1 characters. */
  method AddOptCommon(group: Option<string>, opt: string, esc: bool) returns (r: string)
    ensures r == AddOpt(group, opt, esc)
  {
    var oldlen := if group.Some? then |group.value| else 0;
    var buf := new char[oldlen + 1 + |opt| * 2 + 1](k =>
      if group.Some? && 0 <= k < |group.value| then group.value[k] else '\0');
    var d := 0;
    if oldlen > 0 {
      d := oldlen;
      buf[d] := ',';
      d := d + 1;
    }
    ghost var head := if oldlen > 0 then group.value + "," else "";
    assert buf[..d] == head;
    d := WriteOpt(buf, d, opt, esc);
    buf[d] := '\0';
    return buf[..d];
  }

  /** The copying loop of add_opt_common. */
  method WriteOpt(buf: array<char>, start: nat, opt: string, esc: bool) returns (d: nat)
    requires start + 2 * |opt| < buf.Length
    modifies buf
    ensures start <= d <= start + 2 * |opt| && buf[..d] == old(buf[..start]) + Written(opt, esc)
  {
    d := start;
    var k := 0;
    assert opt[..0] == "";
    while k < |opt|
      invariant 0 <= k <= |opt| && start <= d <= start + 2 * k
      invariant buf[..d] == old(buf[..start]) + Written(opt[..k], esc)
    {
      ghost var done := Written(opt[..k], esc);
      WrittenSnoc(opt, k, esc);
      d := WriteChar(buf, d, opt[k], esc);
      assert old(buf[..start]) + (done + Piece(opt[k], esc)) == (old(buf[..start]) + done) + Piece(opt[k], esc);
      k := k + 1;
    }
    assert opt[..|opt|] == opt;
  }

  function Piece(c: char, esc: bool): string {
    if esc then EscapeChar(c) else [c]
  }

  function Written(opt: string, esc: bool): string {
    if esc then Escape(opt) else opt
  }

  lemma WrittenSnoc(opt: string, k: nat, esc: bool)
    requires k < |opt|
    ensures Written(opt[..k + 1], esc) == Written(opt[..k], esc) + Piece(opt[k], esc)
  {
    assert opt[..k + 1] == opt[..k] + [opt[k]];
    EscapeSnoc(opt[..k], opt[k]);
  }

  method WriteChar(buf: array<char>, at: nat, c: char, esc: bool) returns (d: nat)
    requires at + 1 < buf.Length
    modifies buf
    ensures at < d <= at + 2 && buf[..d] == old(buf[..at]) + Piece(c, esc)
  {
    d := at;
    if esc && (c == ',' || c == '\\') {
      buf[d] := '\\';
      d := d + 1;
    }
    buf[d] := c;
    d := d + 1;
    assert buf[..at] == old(buf[..at]);
    assert buf[..d] == buf[..at] + buf[at..d];
  }

  /** Adding several options with escapes, as fuse_opt_add_opt_escaped does. */
  function AddAll(group: Option<string>, opts: seq<string>): Option<string>
    decreases |opts|
  {
    if opts == [] then group else AddAll(Some(AddOpt(group, opts[0], true)), opts[1..])
  }

  // -------------------------------------------------------------------------
  // Reading a group

  predicate Digit(c: char, top: char) {
    '0' <= c <= top
  }

  predicate Octal(s: string) {
    |s| >= 4 && Digit(s[1], '3') && Digit(s[2], '7') && Digit(s[3], '7')
  }

  function OctalValue(s: string): char
    requires Octal(s)
  {
    var v := (s[1] as int - '0' as int) * 64 + (s[2] as int - '0' as int) * 8 + (s[3] as int - '0' as int);
    assert 0 <= v < 256;
    v as char
  }

  /** What a C string function sees of a text. */
  function Cut(s: string): (r: string)
    ensures NoNul(r) && |r| <= |s| && s[..|r|] == r && (|r| < |s| ==> s[|r|] == '\0')
  {
    if s == "" || s[0] == '\0' then "" else [s[0]] + Cut(s[1..])
  }

  lemma {:induction false} CutWhole(s: string)
    requires NoNul(s)
    ensures Cut(s) == s
  {
    if s != "" { CutWhole(s[1..]); }
  }

  /** Splitting at commas and removing escapes; `cur` is the option read so far. */
  function ReadFrom(s: string, cur: string): seq<string>
    decreases |s|
  {
    if s == "" then [Cut(cur)]
    else if s[0] == ',' then [Cut(cur)] + ReadFrom(s[1..], "")
    else if s[0] == '\\' && |s| > 1 then
      (if Octal(s) then ReadFrom(s[4..], cur + [OctalValue(s)]) else ReadFrom(s[2..], cur + [s[1]]))
    else ReadFrom(s[1..], cur + [s[0]])
  }

  /** An option ends at a comma, and at the end of the group. */
  lemma ReadEnd(s: string, cur: string)
    ensures s == "" ==> ReadFrom(s, cur) == [Cut(cur)]
    ensures s != "" && s[0] == ',' ==> ReadFrom(s, cur) == [Cut(cur)] + ReadFrom(s[1..], "")
  {
  }

  /** One round of the reader. */
  lemma ReadStep(s: string, cur: string)
    requires s != "" && s[0] != ','
    ensures s[0] == '\\' && |s| > 1 && Octal(s) ==> ReadFrom(s, cur) == ReadFrom(s[4..], cur + [OctalValue(s)])
    ensures s[0] == '\\' && |s| > 1 && !Octal(s) ==> ReadFrom(s, cur) == ReadFrom(s[2..], cur + [s[1]])
    ensures !(s[0] == '\\' && |s| > 1) ==> ReadFrom(s, cur) == ReadFrom(s[1..], cur + [s[0]])
  {
  }

  function ReadGroup(s: string): seq<string> {
    ReadFrom(s, "")
  }

  lemma {:induction false} ReadShape(s: string, cur: string)
    ensures |ReadFrom(s, cur)| >= 1 && forall i :: 0 <= i < |ReadFrom(s, cur)| ==> NoNul(ReadFrom(s, cur)[i])
    decreases |s|
  {
    if s == "" {
    } else if s[0] == ',' {
      ReadShape(s[1..], "");
    } else if s[0] == '\\' && |s| > 1 {
      if Octal(s) { ReadShape(s[4..], cur + [OctalValue(s)]); } else { ReadShape(s[2..], cur + [s[1]]); }
    } else {
      ReadShape(s[1..], cur + [s[0]]);
    }
  }

  // -------------------------------------------------------------------------
  // Round trips

  /** Reading escaped text appends it, whatever it contains. */
  lemma {:induction false} ReadEscaped(opt: string, rest: string, cur: string)
    ensures ReadFrom(Escape(opt) + rest, cur) == ReadFrom(rest, cur + opt)
    decreases |opt|
  {
    if opt == "" {
      assert Escape(opt) + rest == rest && cur + opt == cur;
    } else {
      var c, more := opt[0], Escape(opt[1..]) + rest;
      assert Escape(opt) + rest == EscapeChar(c) + more;
      ReadOne(c, more, cur);
      ReadEscaped(opt[1..], rest, cur + [c]);
      assert cur + opt == (cur + [c]) + opt[1..];
    }
  }

  lemma ReadOne(c: char, rest: string, cur: string)
    ensures ReadFrom(EscapeChar(c) + rest, cur) == ReadFrom(rest, cur + [c])
  {
    var t := EscapeChar(c) + rest;
    if c == ',' || c == '\\' {
      assert t[0] == '\\' && t[1] == c && t[2..] == rest;
    } else {
      assert t[0] == c && t[1..] == rest;
    }
  }

  /** The options of a group: empty ones at its front are lost, unless nothing else is there. */
  function Kept(opts: seq<string>): seq<string> {
    if |opts| > 1 && opts[0] == "" then Kept(opts[1..]) else opts
  }

  predicate AllNoNul(opts: seq<string>) {
    forall i :: 0 <= i < |opts| ==> NoNul(opts[i])
  }

  /** Escaped and joined with commas. */
  function Join(opts: seq<string>): string
    requires opts != []
  {
    if |opts| == 1 then Escape(opts[0]) else Escape(opts[0]) + "," + Join(opts[1..])
  }

  lemma {:induction false} AddAllOnto(group: string, opts: seq<string>)
    requires group != "" && opts != []
    ensures AddAll(Some(group), opts) == Some(group + "," + Join(opts))
    decreases |opts|
  {
    var next := group + "," + Escape(opts[0]);
    assert AddOpt(Some(group), opts[0], true) == next;
    if |opts| == 1 {
      assert AddAll(Some(next), opts[1..]) == Some(next);
    } else {
      AddAllOnto(next, opts[1..]);
      assert next + "," + Join(opts[1..]) == group + "," + (Escape(opts[0]) + "," + Join(opts[1..]));
    }
  }

  /** Building a group is escaping and joining what is kept. */
  lemma {:induction false} AddAllIsJoin(group: Option<string>, opts: seq<string>)
    requires opts != [] && (group.Some? ==> group.value == "")
    ensures Kept(opts) != [] && AddAll(group, opts) == Some(Join(Kept(opts)))
    decreases |opts|
  {
    EscapeBounds(opts[0]);
    assert AddOpt(group, opts[0], true) == Escape(opts[0]);
    if |opts| == 1 {
      assert AddAll(Some(Escape(opts[0])), opts[1..]) == Some(Escape(opts[0]));
    } else if opts[0] == "" {
      AddAllIsJoin(Some(""), opts[1..]);
    } else {
      AddAllOnto(Escape(opts[0]), opts[1..]);
    }
  }

  lemma {:induction false} ReadJoin(opts: seq<string>)
    requires opts != [] && AllNoNul(opts)
    ensures ReadGroup(Join(opts)) == opts
    decreases |opts|
  {
    CutWhole(opts[0]);
    assert "" + opts[0] == opts[0];
    if |opts| == 1 {
      ReadEscaped(opts[0], "", "");
      assert Escape(opts[0]) + "" == Escape(opts[0]);
    } else {
      var rest := "," + Join(opts[1..]);
      ReadEscaped(opts[0], rest, "");
      assert Join(opts) == Escape(opts[0]) + rest && rest[1..] == Join(opts[1..]);
      ReadJoin(opts[1..]);
    }
  }

  /** Splitting a group built by escaped adds returns the options added ... */
  lemma GroupRoundTrip(opts: seq<string>)
    requires opts != [] && AllNoNul(opts)
    ensures AddAll(None, opts).Some? && ReadGroup(AddAll(None, opts).value) == Kept(opts)
    ensures ReadGroup(AddAll(None, opts).value) == opts <==> |opts| == 1 || opts[0] != ""
  {
    AddAllIsJoin(None, opts);
    KeptNoNul(opts);
    ReadJoin(Kept(opts));
    KeptShorter(opts);
  }

  lemma {:induction false} KeptNoNul(opts: seq<string>)
    requires AllNoNul(opts)
    ensures AllNoNul(Kept(opts))
    decreases |opts|
  {
    if |opts| > 1 && opts[0] == "" { KeptNoNul(opts[1..]); }
  }

  lemma {:induction false} KeptShorter(opts: seq<string>)
    ensures |Kept(opts)| <= |opts| && (|opts| > 1 && opts[0] == "" ==> |Kept(opts)| < |opts|)
    ensures Kept(Kept(opts)) == Kept(opts)
    decreases |opts|
  {
    if |opts| > 1 && opts[0] == "" { KeptShorter(opts[1..]); }
  }

  /** ... and a group that was built once is rebuilt as it is. */
  lemma GroupStable(opts: seq<string>)
    requires opts != [] && AllNoNul(opts)
    ensures AddAll(None, opts).Some?
    ensures var g := AddAll(None, opts).value; AddAll(None, ReadGroup(g)) == Some(g)
  {
    AddAllIsJoin(None, opts);
    GroupRoundTrip(opts);
    AddAllIsJoin(None, Kept(opts));
    KeptShorter(opts);
  }

  lemma {:induction false} AddAllConcat(group: Option<string>, a: seq<string>, b: seq<string>)
    ensures AddAll(group, a + b) == AddAll(AddAll(group, a), b)
    decreases |a|
  {
    if a == [] {
      assert a + b == b;
    } else {
      assert (a + b)[1..] == a[1..] + b;
      AddAllConcat(Some(AddOpt(group, a[0], true)), a[1..], b);
    }
  }

  // -------------------------------------------------------------------------
  // Octal escapes, and options added as they are

  function OctalDigit(n: nat): char
    requires n < 8
  {
    ('0' as int + n) as char
  }

  /** A backslash and the three octal digits of a byte are read as that byte. */
  lemma OctalRoundTrip(c: char, rest: string, cur: string)
    requires c as int < 256
    ensures var n := c as int;
      ReadFrom("\\" + [OctalDigit(n / 64), OctalDigit(n / 8 % 8), OctalDigit(n % 8)] + rest, cur)
      == ReadFrom(rest, cur + [c])
  {
    var n := c as int;
    var t := "\\" + [OctalDigit(n / 64), OctalDigit(n / 8 % 8), OctalDigit(n % 8)] + rest;
    assert Octal(t) && OctalValue(t) == c && t[4..] == rest;
    ReadStep(t, cur);
  }

  /** Reading joined options and what follows them after a comma. */
  lemma {:induction false} ReadJoinThen(opts: seq<string>, rest: string)
    requires opts != [] && AllNoNul(opts)
    ensures ReadGroup(Join(opts) + "," + rest) == opts + ReadGroup(rest)
    decreases |opts|
  {
    var o := opts[0];
    if |opts| == 1 {
      assert opts == [o];
      ReadOneThen(o, rest);
    } else {
      var more := Join(opts[1..]) + "," + rest;
      assert Join(opts) + "," + rest == Escape(o) + "," + more;
      ReadOneThen(o, more);
      ReadJoinThen(opts[1..], rest);
      assert [o] + (opts[1..] + ReadGroup(rest)) == opts + ReadGroup(rest);
    }
  }

  lemma ReadOneThen(o: string, more: string)
    requires NoNul(o)
    ensures ReadGroup(Escape(o) + "," + more) == [o] + ReadGroup(more)
  {
    hide ReadFrom, Escape;
    CutWhole(o);
    var rest := "," + more;
    assert "" + o == o && rest[1..] == more && Escape(o) + "," + more == Escape(o) + rest;
    ReadEscaped(o, rest, "");
    ReadEnd(rest, o);
  }

  /** An option added with escapes is read as that one option, whatever is in it; a text added
      without is read as the options it spells. Either comes behind those that are there. */
  lemma AddedRead(opts: seq<string>, text: string)
    requires AllNoNul(opts) && NoNul(text)
    ensures var group, front := if opts == [] then None else Some(Join(opts)), if opts == [""] then [] else opts;
      && ReadGroup(AddOpt(group, text, false)) == front + ReadGroup(text)
      && ReadGroup(AddOpt(group, text, true)) == front + [text]
  {
    hide ReadGroup, Escape;
    ReadJoin([text]);
    assert Join([text]) == Escape(text);
    assert [] + ReadGroup(text) == ReadGroup(text) && [] + [text] == [text];
    assert "" + text == text && "" + Escape(text) == Escape(text);
    if opts != [] {
      EscapeBounds(opts[0]);
      assert Join(opts) == "" <==> opts == [""];
      ReadJoinThen(opts, text);
      ReadJoinThen(opts, Escape(text));
    }
  }
}
