/** The growing buffer in which try_get_path writes a path from right to left. */
module PathBuffer {

  const INITIAL_SIZE: nat := 256
  const UINT_MAX: nat := 0xffff_ffff

  class Buffer {
    var buf: array<char>   // its Length is the source's bufsize
    var s: nat             // start of the text, which ends in a NUL at the end of the buffer

    ghost predicate Valid()
      reads this, buf
    {
      INITIAL_SIZE <= buf.Length <= UINT_MAX && s < buf.Length && buf[buf.Length - 1] == '\0'
    }

    function Text(): string
      requires Valid()
      reads this, buf
    {
      buf[s..buf.Length - 1]
    }

    constructor ()
      ensures Valid() && fresh(buf) && Text() == ""
    {
      var b := new char[INITIAL_SIZE](_ => '\0');
      buf := b;
      s := INITIAL_SIZE - 1;
    }

    /** add_name: put "/" and `name` in front of the text. `memory` says whether growing the buffer,
        should it come to that, succeeds. */
    method AddName(name: string, memory: bool) returns (ok: bool)
      requires Valid() && |Text()| + |name| + 2 <= UINT_MAX
      modifies this, buf
      ensures Valid() && (buf == old(buf) || fresh(buf))
      ensures ok <==> memory || |name| < old(s)
      ensures Text() == if ok then "/" + name + old(Text()) else old(Text())
    {
      if |name| >= s {
        if !memory {
          return false;
        }
        Grow(|name|);
      }
      Prepend(name);
      return true;
    }

    /** The writes of add_name, once there is room. */
    method Prepend(name: string)
      requires Valid() && |name| < s
      modifies this`s, buf
      ensures Valid() && Text() == "/" + name + old(Text())
    {
      var b, len, at := buf, |name|, s;
      ghost var was := b[..];
      forall k | at - len <= k < at {
        b[k] := name[k - (at - len)];
      }
      b[at - len - 1] := '/';
      s := at - len - 1;
      assert b[at..b.Length - 1] == was[at..b.Length - 1];
      assert b[at - len..at] == name;
      assert b[s..b.Length - 1] == ['/'] + b[at - len..at] + b[at..b.Length - 1];
    }

    /** The growth branch of add_name: double until the text, a name of length `len` and its slash
        fit, then move the text to the end. */
    method Grow(len: nat)
      requires Valid() && len >= s && |Text()| + len + 2 <= UINT_MAX
      modifies this
      ensures Valid() && fresh(buf) && Text() == old(Text()) && len < s
    {
      ghost var text := Text();
      var oldsize := buf.Length;
      var pathlen := oldsize - s;
      var newsize := oldsize;
      while newsize < pathlen + len + 1
        invariant oldsize <= newsize <= UINT_MAX
        decreases UINT_MAX - newsize
      {
        if newsize >= 0x8000_0000 {
          newsize := UINT_MAX;
        } else {
          newsize := newsize * 2;
        }
      }
      var newbuf := Reallocated(buf, newsize, pathlen);
      assert text == buf[s..oldsize - 1];
      buf := newbuf;
      s := newsize - pathlen;
      assert Text() == text;
    }

    /** realloc, and the memmove after it: the last `pathlen` characters end up at the end again. */
    static method Reallocated(b: array<char>, newsize: nat, pathlen: nat) returns (newbuf: array<char>)
      requires 0 < pathlen <= b.Length <= newsize && b[b.Length - 1] == '\0'
      ensures fresh(newbuf) && newbuf.Length == newsize && newbuf[newsize - 1] == '\0'
      ensures newbuf[newsize - pathlen..newsize - 1] == b[b.Length - pathlen..b.Length - 1]
    {
      newbuf := Realloc(b, newsize);
      assert newbuf[b.Length - pathlen..b.Length] == b[b.Length - pathlen..];
      ghost var text := newbuf[b.Length - pathlen..b.Length - pathlen + pathlen];
      MoveUp(newbuf, b.Length - pathlen, newsize - pathlen, pathlen);
      assert newbuf[newsize - pathlen..newsize - pathlen + pathlen] == text;
      assert newbuf[newsize - pathlen..] == b[b.Length - pathlen..];
      assert newbuf[newsize - pathlen..newsize - 1] == newbuf[newsize - pathlen..][..pathlen - 1];
      assert newbuf[newsize - 1] == newbuf[newsize - pathlen..][pathlen - 1];
    }

    static method Realloc(b: array<char>, newsize: nat) returns (newbuf: array<char>)
      requires b.Length <= newsize
      ensures fresh(newbuf) && newbuf.Length == newsize && forall k :: 0 <= k < b.Length ==> newbuf[k] == b[k]
    {
      newbuf := new char[newsize](j requires 0 <= j reads b => if j < b.Length then b[j] else '\0');
    }

    static method MoveUp(b: array<char>, from: nat, to: nat, n: nat)
      requires from <= to && to + n <= b.Length
      modifies b
      ensures b[to..to + n] == old(b[from..from + n])
    {
      forall k | 0 <= k < n {
        b[to + k] := b[from + k];
      }
    }

    /** The end of try_get_path: the text moves to the front of the buffer; the root is "/". */
    method Finish() returns (path: string)
      requires Valid()
      modifies buf
      ensures path == if old(Text()) == "" then "/" else old(Text())
      ensures |path| < buf.Length && buf[..|path|] == path && buf[|path|] == '\0'
    {
      var b, at := buf, s;
      var len := b.Length - 1 - at;
      ghost var text := Text();
      if len > 0 {
        forall k | 0 <= k <= len {
          b[k] := b[at + k];
        }
        assert b[..len] == text;
        return b[..len];
      } else {
        b[0] := '/';
        b[1] := '\0';
        return b[..1];
      }
    }
  }
}
