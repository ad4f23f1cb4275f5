/** The directory stream of fuse.c: entries are encoded one after another into a growing buffer, and
    handed out page by page to a reader that resumes at the offset of the last whole entry it saw. */
module DirStream {

  type Byte = b: int | 0 <= b < 0x100

  const FUSE_NAME_OFFSET: nat := 24
  const UINT_MAX: nat := 0xffff_ffff

  // -------------------------------------------------------------------------
  // struct fuse_dirent, little-endian

  // An entry of the directory: what the file system passes to the filler.
  datatype Entry = Entry(ino: nat, mode: nat, name: seq<Byte>)

  // An entry as the reader sees it.
  datatype Dirent = Dirent(ino: nat, off: nat, typ: nat, name: seq<Byte>)

  function Le(n: nat, k: nat): (b: seq<Byte>)
    ensures |b| == k
  {
    if k == 0 then [] else [n % 0x100] + Le(n / 0x100, k - 1)
  }

  function UnLe(b: seq<Byte>): nat {
    if b == [] then 0 else b[0] + 0x100 * UnLe(b[1..])
  }

  function Pow256(k: nat): nat {
    if k == 0 then 1 else 0x100 * Pow256(k - 1)
  }

  lemma {:induction false} LeRoundTrip(n: nat, k: nat)
    requires n < Pow256(k)
    ensures UnLe(Le(n, k)) == n
  {
    if k > 0 {
      LeRoundTrip(n / 0x100, k - 1);
      assert Le(n, k)[1..] == Le(n / 0x100, k - 1);
    }
  }

  lemma Pow256Values()
    ensures Pow256(4) == 0x1_0000_0000 && Pow256(8) == 0x1_0000_0000_0000_0000
  {
    assert Pow256(1) == 0x100 && Pow256(2) == 0x1_0000 && Pow256(3) == 0x100_0000;
    assert Pow256(5) == 0x100_0000_0000 && Pow256(6) == 0x1_0000_0000_0000 && Pow256(7) == 0x100_0000_0000_0000;
  }

  /** fuse_dirent_size: header and name, rounded up to a multiple of eight. */
  function DirentSize(namelen: nat): (n: nat)
    ensures FUSE_NAME_OFFSET + namelen <= n < FUSE_NAME_OFFSET + namelen + 8 && n % 8 == 0
  {
    (FUSE_NAME_OFFSET + namelen + 7) / 8 * 8
  }

  /** The file type is the four bits of the mode above the low twelve, as a number. */
  function TypeOf(mode: nat): (t: nat)
    ensures t < 16 && mode % 0x10000 == t * 0x1000 + mode % 0x1000
  {
    mode / 0x1000 % 16
  }

  /** fuse_add_dirent. */
  function Encode(e: Entry, off: nat): (b: seq<Byte>)
    ensures |b| == DirentSize(|e.name|)
  {
    var pad := DirentSize(|e.name|) - FUSE_NAME_OFFSET - |e.name|;
    Le(e.ino, 8) + Le(off, 8) + Le(|e.name|, 4) + Le(TypeOf(e.mode), 4) + e.name + seq(pad, _ => 0)
  }

  /** What the fields of the protocol can hold. */
  predicate Fits(e: Entry) {
    e.ino < 0x1_0000_0000_0000_0000 && |e.name| < 0x8000_0000
  }

  /** Reading one entry off the front of `b`; the header and the whole entry must be there. */
  function DecodeOne(b: seq<Byte>): Dirent
    requires |b| >= FUSE_NAME_OFFSET && DirentSize(UnLe(b[16..20])) <= |b|
  {
    var namelen := UnLe(b[16..20]);
    Dirent(UnLe(b[..8]), UnLe(b[8..16]), UnLe(b[20..24]), b[24..24 + namelen])
  }

  /** A reader takes whole entries and ignores an incomplete one at the end. */
  function DecodePage(b: seq<Byte>): seq<Dirent>
    decreases |b|
  {
    if |b| < FUSE_NAME_OFFSET || DirentSize(UnLe(b[16..20])) > |b| then []
    else [DecodeOne(b)] + DecodePage(b[DirentSize(UnLe(b[16..20]))..])
  }

  lemma Pieces(a: seq<Byte>, b: seq<Byte>, c: seq<Byte>, d: seq<Byte>, name: seq<Byte>, pad: seq<Byte>, rest: seq<Byte>)
    requires |a| == 8 && |b| == 8 && |c| == 4 && |d| == 4
    ensures var t := a + b + c + d + name + pad + rest;
      t[..8] == a && t[8..16] == b && t[16..20] == c && t[20..24] == d && t[24..24 + |name|] == name
  {
  }

  lemma HeaderOf(e: Entry, off: nat, rest: seq<Byte>)
    requires Fits(e) && off < 0x1_0000_0000_0000_0000
    ensures var b := Encode(e, off) + rest;
      && UnLe(b[..8]) == e.ino && UnLe(b[8..16]) == off && UnLe(b[16..20]) == |e.name|
      && UnLe(b[20..24]) == TypeOf(e.mode) && b[24..24 + |e.name|] == e.name
  {
    hide Le, UnLe, DecodePage;
    Pow256Values();
    var pad := DirentSize(|e.name|) - FUSE_NAME_OFFSET - |e.name|;
    Pieces(Le(e.ino, 8), Le(off, 8), Le(|e.name|, 4), Le(TypeOf(e.mode), 4), e.name, seq(pad, _ => 0), rest);
    LeRoundTrip(e.ino, 8);
    LeRoundTrip(off, 8);
    LeRoundTrip(|e.name|, 4);
    LeRoundTrip(TypeOf(e.mode), 4);
  }

  // -------------------------------------------------------------------------
  // The stream of a whole directory

  function EntrySize(e: Entry): nat {
    DirentSize(|e.name|)
  }

  /** The bytes of the entries from position `at` on: each entry's off is where the next one starts. */
  function Stream(es: seq<Entry>, at: nat): seq<Byte>
    decreases |es|
  {
    if es == [] then [] else Encode(es[0], at + EntrySize(es[0])) + Stream(es[1..], at + EntrySize(es[0]))
  }

  function Total(es: seq<Entry>): nat {
    if es == [] then 0 else EntrySize(es[0]) + Total(es[1..])
  }

  /** What a reader is to see. */
  function Dirents(es: seq<Entry>, at: nat): (ds: seq<Dirent>)
    ensures |ds| == |es|
    decreases |es|
  {
    if es == [] then []
    else
      var next := at + EntrySize(es[0]);
      [Dirent(es[0].ino, next, TypeOf(es[0].mode), es[0].name)] + Dirents(es[1..], next)
  }

  predicate AllFit(es: seq<Entry>) {
    forall i :: 0 <= i < |es| ==> Fits(es[i])
  }

  lemma {:induction false} StreamLength(es: seq<Entry>, at: nat)
    ensures |Stream(es, at)| == Total(es)
  {
    if es != [] { StreamLength(es[1..], at + EntrySize(es[0])); }
  }

  lemma {:induction false} StreamSnoc(es: seq<Entry>, e: Entry, at: nat)
    ensures Stream(es + [e], at) == Stream(es, at) + Encode(e, at + Total(es) + EntrySize(e))
    decreases |es|
  {
    hide Encode;
    if es == [] {
      assert (es + [e])[1..] == [] && Stream([], at + EntrySize(e)) == [];
    } else {
      assert (es + [e])[1..] == es[1..] + [e];
      StreamSnoc(es[1..], e, at + EntrySize(es[0]));
    }
  }

  lemma {:induction false} TotalSnoc(es: seq<Entry>, e: Entry)
    ensures Total(es + [e]) == Total(es) + EntrySize(e)
    decreases |es|
  {
    if es == [] {
      assert (es + [e])[1..] == [];
    } else {
      assert (es + [e])[1..] == es[1..] + [e];
      TotalSnoc(es[1..], e);
    }
  }

  lemma {:induction false} TotalPrefix(es: seq<Entry>, k: nat)
    requires k <= |es|
    ensures Total(es) == Total(es[..k]) + Total(es[k..])
    decreases |es|
  {
    if k == 0 {
      assert es[..0] == [] && es[0..] == es;
    } else {
      TotalPrefix(es[1..], k - 1);
      assert es[1..][..k - 1] == es[..k][1..] && es[1..][k - 1..] == es[k..];
    }
  }

  /** How many whole entries fit into the first `m` bytes. */
  function Whole(es: seq<Entry>, m: nat): (t: nat)
    ensures t <= |es|
    decreases |es|
  {
    if es == [] || EntrySize(es[0]) > m then 0 else 1 + Whole(es[1..], m - EntrySize(es[0]))
  }

  lemma {:induction false} StreamSplit(es: seq<Entry>, k: nat, at: nat)
    requires k <= |es|
    ensures Stream(es, at) == Stream(es[..k], at) + Stream(es[k..], at + Total(es[..k]))
    decreases |es|
  {
    hide Encode;
    if k == 0 {
      assert es[..0] == [] && es[0..] == es;
    } else {
      var n, rest := EntrySize(es[0]), es[1..];
      assert es[..k][1..] == rest[..k - 1] && rest[k - 1..] == es[k..] && es[..k][0] == es[0];
      StreamSplit(rest, k - 1, at + n);
      assert Encode(es[0], at + n) + (Stream(rest[..k - 1], at + n) + Stream(es[k..], at + n + Total(rest[..k - 1])))
          == (Encode(es[0], at + n) + Stream(rest[..k - 1], at + n)) + Stream(es[k..], at + n + Total(rest[..k - 1]));
    }
  }

  /** The last entry's off is where the next page has to start. */
  lemma {:induction false} LastOff(es: seq<Entry>, at: nat)
    requires es != []
    ensures Dirents(es, at)[|es| - 1].off == at + Total(es)
    decreases |es|
  {
    if |es| > 1 {
      LastOff(es[1..], at + EntrySize(es[0]));
    } else {
      assert es[1..] == [];
    }
  }

  lemma {:induction false} DirentsSplit(es: seq<Entry>, k: nat, at: nat)
    requires k <= |es|
    ensures Dirents(es, at) == Dirents(es[..k], at) + Dirents(es[k..], at + Total(es[..k]))
    decreases |es|
  {
    if k == 0 {
      assert es[..0] == [] && es[0..] == es;
    } else {
      assert es[..k][1..] == es[1..][..k - 1] && es[1..][k - 1..] == es[k..] && es[..k][0] == es[0];
      DirentsSplit(es[1..], k - 1, at + EntrySize(es[0]));
    }
  }

  lemma {:induction false} WholeFits(es: seq<Entry>, m: nat)
    ensures Total(es[..Whole(es, m)]) <= m
    decreases |es|
  {
    if es == [] || EntrySize(es[0]) > m {
      assert es[..0] == [];
    } else {
      WholeFits(es[1..], m - EntrySize(es[0]));
      var t := Whole(es[1..], m - EntrySize(es[0]));
      assert es[..t + 1][1..] == es[1..][..t] && es[..t + 1][0] == es[0];
    }
  }

  /** Decoding a page cut out of a stream yields the entries that are wholly in it. */
  lemma {:induction false} DecodeCut(es: seq<Entry>, at: nat, m: nat)
    requires AllFit(es) && at + Total(es) <= UINT_MAX && m <= |Stream(es, at)|
    ensures DecodePage(Stream(es, at)[..m]) == Dirents(es[..Whole(es, m)], at)
    decreases |es|
  {
    hide Encode, DecodePage;
    if es == [] {
      assert es[..0] == [];
      DecodeNothing();
    } else {
      var n, rest := EntrySize(es[0]), es[1..];
      var first, more := Encode(es[0], at + n), Stream(rest, at + n);
      if n > m {
        CutFirst(es[0], at + n, more, m);
        assert es[..0] == [];
      } else {
        assert (first + more)[..m] == first + more[..m - n];
        DecodeCut(rest, at + n, m - n);
        DecodeFirst(es[0], at + n, more[..m - n]);
        var t := Whole(rest, m - n);
        assert es[..t + 1][1..] == rest[..t] && es[..t + 1][0] == es[0];
      }
    }
  }

  lemma NothingEncoded()
    ensures Encoded([]) == []
  {
  }

  lemma DecodeNothing()
    ensures DecodePage([]) == []
  {
  }

  lemma DecodeFirst(e: Entry, off: nat, more: seq<Byte>)
    requires Fits(e) && off < 0x1_0000_0000_0000_0000
    ensures DecodePage(Encode(e, off) + more) == [Dirent(e.ino, off, TypeOf(e.mode), e.name)] + DecodePage(more)
  {
    HeaderOf(e, off, more);
    assert (Encode(e, off) + more)[EntrySize(e)..] == more;
  }

  /** An entry that is not wholly there is not decoded. */
  lemma CutFirst(e: Entry, off: nat, more: seq<Byte>, m: nat)
    requires Fits(e) && off < 0x1_0000_0000_0000_0000 && m < EntrySize(e)
    ensures DecodePage((Encode(e, off) + more)[..m]) == []
  {
    var b := (Encode(e, off) + more)[..m];
    if m >= FUSE_NAME_OFFSET {
      HeaderOf(e, off, more);
      assert b[16..20] == (Encode(e, off) + more)[16..20];
    }
  }

  lemma EmptyStream()
    ensures Stream([], 0) == [] && Total([]) == 0
  {
  }

  /** One more entry of a listing. */
  lemma NextEntry(es: seq<Entry>, i: nat)
    requires i < |es|
    ensures Stream(es[..i + 1], 0) == Stream(es[..i], 0) + Encode(es[i], |Stream(es[..i], 0)| + EntrySize(es[i]))
    ensures Total(es[..i + 1]) == |Stream(es[..i], 0)| + EntrySize(es[i]) && |Stream(es[..i], 0)| == Total(es[..i])
  {
    hide Encode, Stream;
    assert es[..i + 1] == es[..i] + [es[i]];
    StreamSnoc(es[..i], es[i], 0);
    StreamLength(es[..i], 0);
    TotalSnoc(es[..i], es[i]);
    TotalPrefix(es, i + 1);
  }

  // -------------------------------------------------------------------------
  // A file system that pages by itself

  // An entry with the position behind it, which the file system chooses.
  datatype Item = Item(entry: Entry, off: nat)

  function Encoded(items: seq<Item>): seq<Byte> {
    if items == [] then [] else Encode(items[0].entry, items[0].off) + Encoded(items[1..])
  }

  function DirentsOf(items: seq<Item>): (ds: seq<Dirent>)
    ensures |ds| == |items|
    ensures forall i :: 0 <= i < |ds| ==> ds[i].off == items[i].off && ds[i].name == items[i].entry.name
  {
    if items == [] then []
    else
      var e := items[0].entry;
      [Dirent(e.ino, items[0].off, TypeOf(e.mode), e.name)] + DirentsOf(items[1..])
  }

  /** How many of the items fit into `m` bytes. */
  function Fitting(items: seq<Item>, m: nat): (t: nat)
    ensures t <= |items|
  {
    if items == [] || EntrySize(items[0].entry) > m then 0 else 1 + Fitting(items[1..], m - EntrySize(items[0].entry))
  }

  predicate ItemsOk(items: seq<Item>) {
    forall i :: 0 <= i < |items| ==> Fits(items[i].entry) && 0 < items[i].off < 0x1_0000_0000_0000_0000
  }

  lemma {:induction false} EncodedSnoc(items: seq<Item>, x: Item)
    ensures Encoded(items + [x]) == Encoded(items) + Encode(x.entry, x.off)
    ensures |Encoded(items + [x])| == |Encoded(items)| + EntrySize(x.entry)
    decreases |items|
  {
    hide Encode;
    if items == [] {
      assert (items + [x])[1..] == [];
    } else {
      assert (items + [x])[1..] == items[1..] + [x];
      EncodedSnoc(items[1..], x);
    }
  }

  /** The items up to the first that does not fit are those that fit. */
  lemma {:induction false} FittingStops(items: seq<Item>, t: nat, m: nat)
    requires t <= |items| && |Encoded(items[..t])| <= m
    requires t < |items| ==> |Encoded(items[..t])| + EntrySize(items[t].entry) > m
    ensures Fitting(items, m) == t
    decreases |items|
  {
    hide Encode;
    if t > 0 {
      assert items[..t][1..] == items[1..][..t - 1];
      FittingStops(items[1..], t - 1, m - EntrySize(items[0].entry));
    }
  }

  /** A reader decodes what was encoded. */
  lemma {:induction false} DecodeItems(items: seq<Item>)
    requires ItemsOk(items)
    ensures DecodePage(Encoded(items)) == DirentsOf(items)
  {
    hide Encode, DecodePage;
    if items == [] {
      DecodeNothing();
    } else {
      DecodeItems(items[1..]);
      DecodeFirst(items[0].entry, items[0].off, Encoded(items[1..]));
    }
  }

  lemma {:induction false} DirentsOfSplit(items: seq<Item>, k: nat)
    requires k <= |items|
    ensures DirentsOf(items) == DirentsOf(items[..k]) + DirentsOf(items[k..])
    decreases |items|
  {
    if k == 0 {
      assert items[0..] == items;
    } else {
      assert items[..k][1..] == items[1..][..k - 1] && items[1..][k - 1..] == items[k..];
      DirentsOfSplit(items[1..], k - 1);
    }
  }

  /** What the file system still has from a position on; zero is the beginning. */
  function From(items: seq<Item>, off: nat): seq<Item> {
    if off == 0 || items == [] then items
    else if items[0].off == off then items[1..]
    else From(items[1..], off)
  }

  predicate Distinct(items: seq<Item>) {
    forall i, j :: 0 <= i < j < |items| ==> items[i].off != items[j].off
  }

  lemma {:induction false} FromAt(items: seq<Item>, i: nat)
    requires Distinct(items) && ItemsOk(items) && 0 < i <= |items|
    ensures From(items, items[i - 1].off) == items[i..]
    decreases i
  {
    if i > 1 {
      FromAt(items[1..], i - 1);
    }
  }

  /** What the file system passes to the filler: the whole directory with offset zero, or the items from
      the position asked for with their own offsets. */
  datatype Listing = WholeDir(entries: seq<Entry>) | Paged(items: seq<Item>)

  predicate ListingOk(l: Listing) {
    match l
    case WholeDir(es) => forall i :: 0 <= i < |es| ==> EntrySize(es[i]) <= UINT_MAX
    case Paged(items) => forall i :: 0 <= i < |items| ==> items[i].off != 0 && EntrySize(items[i].entry) <= UINT_MAX
  }

  /** A whole directory has a length that the 32-bit counter of the buffer can hold. */
  predicate Countable(l: Listing) {
    l.WholeDir? ==> Total(l.entries) <= UINT_MAX
  }

  /** What is in the buffer then. */
  function Buffered(l: Listing, pagesize: nat): seq<Byte> {
    match l
    case WholeDir(es) => Stream(es, 0)
    case Paged(items) => Encoded(items[..Fitting(items, pagesize)])
  }

  /** The page holds what the file system lists from its position on, as far as it fits. */
  predicate RightPage(items: seq<Item>, page: seq<Byte>, pagesize: nat) {
    page == Buffered(Paged(items), pagesize)
  }

  /** Whether the library pages, and the buffer can be used for the next page. */
  predicate Reusable(l: Listing) {
    l.Paged? ==> l.items == []
  }

  /** The text after one more entry, with a length that wraps at 2^32. */
  predicate Counted(text: seq<Byte>, e: Entry, text': seq<Byte>)
    requires |text| <= UINT_MAX && EntrySize(e) <= UINT_MAX
  {
    var newlen := |text| + EntrySize(e);
    text' == if newlen <= UINT_MAX then text + Encode(e, newlen) else text[..newlen - UINT_MAX - 1]
  }

  /** The text after the first `i` entries of a listing. */
  predicate Listed(text: seq<Byte>, es: seq<Entry>, i: nat)
    requires i <= |es|
  {
    && |text| == Total(es[..i]) % (UINT_MAX + 1)
    && (Total(es[..i]) <= UINT_MAX ==> text == Stream(es[..i], 0))
  }

  lemma ListedNone(es: seq<Entry>)
    ensures Listed([], es, 0)
  {
    assert es[..0] == [];
    EmptyStream();
  }

  lemma Wraps(total: nat, n: nat)
    requires n <= UINT_MAX
    ensures var newlen := total % (UINT_MAX + 1) + n;
      (total + n) % (UINT_MAX + 1) == if newlen <= UINT_MAX then newlen else newlen - UINT_MAX - 1
  {
  }

  lemma ListedNext(text: seq<Byte>, text': seq<Byte>, es: seq<Entry>, i: nat)
    requires i < |es| && |text| <= UINT_MAX && EntrySize(es[i]) <= UINT_MAX
    requires Listed(text, es, i) && Counted(text, es[i], text')
    ensures Listed(text', es, i + 1)
  {
    hide Encode, Stream, Total;
    NextEntry(es, i);
    Wraps(Total(es[..i]), EntrySize(es[i]));
  }

  lemma ListedAll(text: seq<Byte>, es: seq<Entry>)
    requires Listed(text, es, |es|)
    ensures |text| == Total(es) % (UINT_MAX + 1) && (text == Stream(es, 0) <==> Total(es) <= UINT_MAX)
  {
    assert es[..|es|] == es;
    StreamLength(es, 0);
  }

  // -------------------------------------------------------------------------
  // struct fuse_dh

  /** At most `n` bytes of a text, from `off` on. */
  function Page(text: seq<Byte>, off: nat, n: nat): seq<Byte> {
    if off >= |text| then [] else if off + n > |text| then text[off..] else text[off..off + n]
  }

  class DirHandle {
    var contents: array<Byte>
    var size: nat
    var len: nat
    var needlen: nat
    var filled: bool
    var error: bool

    ghost predicate Valid()
      reads this
    {
      size == contents.Length <= UINT_MAX && len <= size && needlen <= UINT_MAX
    }

    constructor ()
      ensures Valid() && fresh(contents) && !filled && len == 0
    {
      contents := new Byte[0];
      size, len, needlen, filled, error := 0, 0, 0, false, false;
    }

    function Text(): seq<Byte>
      requires Valid()
      reads this, contents
    {
      contents[..len]
    }

    /** What a file system that pages by itself leaves: a filled buffer is an empty one. */
    predicate Paging()
      requires Valid()
      reads this, contents
    {
      filled ==> Text() == []
    }

    /** extend_contents. */
    method ExtendContents(minsize: nat, memory: bool) returns (ok: bool)
      requires Valid() && minsize <= UINT_MAX
      modifies this`contents, this`size, this`error
      ensures Valid() && Text() == old(Text()) && (contents == old(contents) || fresh(contents))
      ensures ok <==> memory || minsize <= old(size)
      ensures ok ==> minsize <= size && error == old(error)
      ensures !ok ==> error
    {
      if minsize > size {
        var newsize := size;
        if newsize == 0 {
          newsize := 1024;
        }
        while newsize < minsize
          invariant size <= newsize <= UINT_MAX && newsize > 0
          decreases UINT_MAX - newsize
        {
          if newsize >= 0x8000_0000 {
            newsize := UINT_MAX;
          } else {
            newsize := newsize * 2;
          }
        }
        if !memory {
          error := true;
          return false;
        }
        var c := contents;
        var newptr := new Byte[newsize](j requires 0 <= j reads c => if j < c.Length then c[j] else 0);
        assert newptr[..len] == c[..len];
        contents := newptr;
        size := newsize;
      }
      return true;
    }

    /** Writing one entry behind the others. */
    method AddDirent(e: Entry, off: nat)
      requires Valid() && len + EntrySize(e) <= size
      modifies this`len, contents
      ensures Valid() && Text() == old(Text()) + Encode(e, off) && contents == old(contents)
    {
      hide Encode;
      var b, c, at := Encode(e, off), contents, len;
      forall k | 0 <= k < |b| {
        c[at + k] := b[k];
      }
      assert c[..at] == old(c[..at]);
      assert c[at..at + |b|] == b;
      assert c[..at + |b|] == c[..at] + c[at..at + |b|];
      len := len + |b|;
    }

    /** fill_dir. With `off` zero the library keeps the whole directory and computes the offsets; with
        another `off` it keeps one page and uses the file system's offsets. The length of the buffer is a
        32-bit number: when it wraps, the entry is lost, the text is cut, and no error is reported. */
    method FillDir(e: Entry, off: nat, memory: bool) returns (full: bool)
      requires Valid() && EntrySize(e) <= UINT_MAX && (off != 0 ==> len <= needlen)
      modifies this`contents, this`size, this`len, this`filled, this`error, contents
      ensures Valid() && (contents == old(contents) || fresh(contents))
      ensures full ==> Text() == old(Text())
      ensures !full ==> error == old(error)
      ensures !full && off == 0 ==> filled == old(filled) && Counted(old(Text()), e, Text())
      ensures !full && off != 0 ==> Text() == old(Text()) + Encode(e, off) && len <= needlen && !filled
      ensures memory ==> (full <==> off != 0 && old(len) + EntrySize(e) > needlen)
      ensures full ==> error || (off != 0 && old(len) + EntrySize(e) > needlen && error == old(error) && !filled)
      ensures needlen == old(needlen) && (memory ==> error == old(error))
    {
      if off != 0 {
        var ok := ExtendContents(needlen, memory);
        if !ok {
          return true;
        }
        filled := false;
        if len + EntrySize(e) > needlen {
          return true;
        }
        AddDirent(e, off);
      } else {
        full := AddCounted(e, memory);
        return;
      }
      return false;
    }

    /** The branch of fill_dir for offset zero. */
    method AddCounted(e: Entry, memory: bool) returns (full: bool)
      requires Valid() && EntrySize(e) <= UINT_MAX
      modifies this`contents, this`size, this`len, this`error, contents
      ensures Valid() && (contents == old(contents) || fresh(contents))
      ensures if full then error && Text() == old(Text()) else error == old(error)
      ensures !full ==> Counted(old(Text()), e, Text())
      ensures memory ==> !full
    {
      hide Encode;
      ghost var text := Text();
      var newlen := len + EntrySize(e);
      var counted := if newlen <= UINT_MAX then newlen else newlen - UINT_MAX - 1;
      var ok := ExtendContents(counted, memory);
      if !ok {
        return true;
      }
      if EntrySize(e) <= size - len {
        AddDirent(e, newlen);
      } else {
        assert contents[..counted] == contents[..len][..counted];
      }
      len := counted;
      return false;
    }

    /** readdir_fill. */
    method ReaddirFill(l: Listing, pagesize: nat, memory: bool) returns (ok: bool)
      requires Valid() && ListingOk(l) && pagesize <= UINT_MAX
      modifies this, contents
      ensures Valid() && (contents == old(contents) || fresh(contents))
      ensures memory ==> ok
      ensures ok ==> (filled <==> Reusable(l)) && (Text() == Buffered(l, pagesize) <==> Countable(l))
      ensures !ok ==> !filled
    {
      len, error, needlen, filled := 0, false, pagesize, true;
      match l {
        case WholeDir(entries) => PassWhole(entries, memory);
        case Paged(items) => PassPage(items, memory);
      }
      ok := !error;
      if !ok {
        filled := false;
      }
    }

    /** A file system that passes its whole directory with offset zero. */
    method PassWhole(listing: seq<Entry>, memory: bool)
      requires Valid() && ListingOk(WholeDir(listing)) && len == 0 && !error && filled
      modifies this`contents, this`size, this`len, this`filled, this`error, contents
      ensures Valid() && (contents == old(contents) || fresh(contents))
      ensures memory ==> !error
      ensures !error ==> filled && len == Total(listing) % (UINT_MAX + 1)
      ensures !error ==> (Text() == Stream(listing, 0) <==> Total(listing) <= UINT_MAX)
    {
      hide Encode, Stream, Total, Listed, Counted;
      ListedNone(listing);
      assert contents[..0] == [];
      var i := 0;
      while i < |listing|
        invariant 0 <= i <= |listing| && Valid() && (contents == old(contents) || fresh(contents))
        invariant filled && !error && Listed(Text(), listing, i)
      {
        ghost var text := Text();
        var full := FillDir(listing[i], 0, memory);
        if full {
          return;
        }
        ListedNext(text, Text(), listing, i);
        i := i + 1;
      }
      ListedAll(Text(), listing);
    }

    /** A file system that passes entries with their offsets until the buffer is full. */
    method PassPage(items: seq<Item>, memory: bool)
      requires Valid() && ListingOk(Paged(items)) && len == 0 && !error && filled
      modifies this`contents, this`size, this`len, this`filled, this`error, contents
      ensures Valid() && (contents == old(contents) || fresh(contents))
      ensures memory ==> !error
      ensures !error ==> (filled <==> items == []) && Text() == Encoded(items[..Fitting(items, needlen)])
    {
      hide Encode, Encoded, Fitting;
      assert items[..0] == [] && contents[..0] == [] == Encoded([]) by { NothingEncoded(); }
      var i := 0;
      while i < |items|
        invariant 0 <= i <= |items| && Valid() && (contents == old(contents) || fresh(contents))
        invariant (filled <==> i == 0) && !error && needlen == old(needlen)
        invariant Text() == Encoded(items[..i]) && len <= needlen
      {
        var full := FillDir(items[i].entry, items[i].off, memory);
        if full {
          if !error {
            FittingStops(items, i, needlen);
          }
          return;
        }
        EncodedSnoc(items[..i], items[i]);
        assert items[..i + 1] == items[..i] + [items[i]];
        i := i + 1;
      }
      FittingStops(items, i, needlen);
    }

    /** fuse_lib_readdir: one page of the directory from position `off` on. */
    method Readdir(l: Listing, pagesize: nat, off: nat, memory: bool) returns (ok: bool, reply: seq<Byte>)
      requires Valid() && ListingOk(l) && pagesize <= UINT_MAX
      modifies this, contents
      ensures Valid() && (contents == old(contents) || fresh(contents))
      ensures memory ==> ok
      ensures ok && (off == 0 || !old(filled)) ==>
        (filled <==> Reusable(l)) && (Text() == Buffered(l, pagesize) <==> Countable(l))
      ensures off != 0 && old(filled) ==> ok && Text() == old(Text()) && filled
      ensures ok ==> reply == if filled then Page(Text(), off, pagesize) else Text()
      ensures l.Paged? && old(Paging()) && ok ==> Paging() && (RightPage(l.items, reply, pagesize) <==>
        off == 0 || !old(filled) || l.items == [] || EntrySize(l.items[0].entry) > pagesize)
    {
      hide Encode, Stream;
      reply := [];
      if off == 0 {
        filled := false;
      }
      if !filled {
        ok := ReaddirFill(l, pagesize, memory);
        if !ok {
          return;
        }
      }
      ok := true;
      if filled {
        reply := Cut(off, pagesize);
      } else {
        reply := contents[..len];
      }
    }

    /** The end of fuse_lib_readdir. */
    method Cut(off: nat, pagesize: nat) returns (reply: seq<Byte>)
      requires Valid()
      ensures reply == Page(Text(), off, pagesize)
    {
      reply := [];
      var n := pagesize;
      if off < len {
        if off + n > len {
          n := len - off;
        }
        reply := contents[off..off + n];
      }
    }
  }

  // -------------------------------------------------------------------------
  // Reading a directory page by page

  lemma NothingSeen()
    ensures Dirents([], 0) == []
  {
  }

  lemma StreamFrom(es: seq<Entry>, i: nat)
    requires i <= |es|
    ensures var (s, pos) := (Stream(es, 0), Total(es[..i]));
      |s| == Total(es) && pos <= |s| && s[pos..] == Stream(es[i..], pos) && |s| - pos == Total(es[i..])
  {
    hide Encode, Stream, Total;
    var s, pos := Stream(es, 0), Total(es[..i]);
    StreamLength(es, 0);
    TotalPrefix(es, i);
    StreamSplit(es, i, 0);
    StreamLength(es[..i], 0);
    var a, b := Stream(es[..i], 0), Stream(es[i..], pos);
    assert 0 + Total(es[..i]) == pos;
    assert s == a + b;
    DropPrefix(s, a, b, pos);
  }

  lemma DropPrefix(s: seq<Byte>, a: seq<Byte>, b: seq<Byte>, n: nat)
    requires s == a + b && n == |a|
    ensures n <= |s| && s[n..] == b
  {
  }

  /** What one page holds for a reader that has seen the first `i` entries: the next `t` entries. */
  lemma PageAt(es: seq<Entry>, i: nat, pagesize: nat) returns (t: nat)
    requires AllFit(es) && Total(es) <= UINT_MAX && i <= |es|
    requires forall k :: 0 <= k < |es| ==> EntrySize(es[k]) <= pagesize
    ensures i + t <= |es| && (t > 0 <==> i < |es|)
    ensures DecodePage(Page(Stream(es, 0), Total(es[..i]), pagesize)) == Dirents(es[i..i + t], Total(es[..i]))
  {
    hide Encode, Stream, DecodePage, Dirents;
    var rest, s, pos := es[i..], Stream(es, 0), Total(es[..i]);
    StreamFrom(es, i);
    var m := if pos + pagesize > |s| then |s| - pos else pagesize;
    var page := Page(s, pos, pagesize);
    assert page == s[pos..][..m];
    assert AllFit(rest);
    TotalPrefix(es, i);
    DecodeCut(rest, pos, m);
    t := Whole(rest, m);
    assert rest[..t] == es[i..i + t];
    if i < |es| {
      assert rest[0] == es[i];
      assert EntrySize(rest[0]) <= m;
    }
  }

  lemma SeenMore(es: seq<Entry>, i: nat, t: nat)
    requires i + t <= |es|
    ensures Dirents(es[..i], 0) + Dirents(es[i..i + t], Total(es[..i])) == Dirents(es[..i + t], 0)
    ensures t > 0 ==> Dirents(es[i..i + t], Total(es[..i]))[t - 1].off == Total(es[..i + t]) && Total(es[..i + t]) > 0
  {
    hide Dirents;
    assert es[..i + t][..i] == es[..i] && es[..i + t][i..] == es[i..i + t];
    TotalPrefix(es[..i + t], i);
    DirentsSplit(es[..i + t], i, 0);
    if t > 0 { LastOff(es[i..i + t], Total(es[..i])); }
  }

  /** A reader that decodes whole entries and resumes at the last off sees every entry of the
      directory exactly once, in order, whatever the page sizes, as long as no page is smaller than
      an entry; and it comes to an end. */
  method ReadWhole(dh: DirHandle, listing: seq<Entry>, pages: nat -> nat) returns (got: seq<Dirent>)
    requires dh.Valid() && AllFit(listing) && Total(listing) <= UINT_MAX
    requires forall k, j :: 0 <= j < |listing| ==> EntrySize(listing[j]) <= pages(k)
    requires forall k :: pages(k) <= UINT_MAX
    modifies dh, dh.contents
    ensures got == Dirents(listing, 0)
  {
    hide Encode, Stream, DecodePage, Dirents, Page, AllFit;
    got := [];
    var pos, k := 0, 0;
    ghost var i := 0;
    assert listing[..0] == [];
    NothingSeen();
    while true
      invariant dh.Valid() && (dh.contents == old(dh.contents) || fresh(dh.contents))
      invariant i <= |listing| && pos == Total(listing[..i]) && got == Dirents(listing[..i], 0)
      invariant i > 0 ==> dh.filled && dh.Text() == Stream(listing, 0) && pos > 0
      decreases |listing| - i
    {
      var ok, reply := dh.Readdir(WholeDir(listing), pages(k), pos, true);
      var ds := DecodePage(reply);
      ghost var t := PageAt(listing, i, pages(k));
      SeenMore(listing, i, t);
      if ds == [] {
        assert listing[..i] == listing;
        return;
      }
      got := got + ds;
      pos := ds[|ds| - 1].off;
      i := i + |ds|;
      k := k + 1;
    }
  }

  /** A page of a file system that pages by itself: whole entries, and at least one of those left. */
  lemma PagedReply(items: seq<Item>, i: nat, pagesize: nat) returns (t: nat)
    requires ItemsOk(items) && i <= |items|
    requires forall k :: 0 <= k < |items| ==> EntrySize(items[k].entry) <= pagesize
    ensures i + t <= |items| && (t > 0 <==> i < |items|)
    ensures DecodePage(Buffered(Paged(items[i..]), pagesize)) == DirentsOf(items[i..i + t])
    ensures DirentsOf(items[..i]) + DirentsOf(items[i..i + t]) == DirentsOf(items[..i + t])
  {
    hide Encoded, DecodePage, DirentsOf;
    var rest := items[i..];
    t := Fitting(rest, pagesize);
    assert rest[..t] == items[i..i + t];
    DecodeItems(rest[..t]);
    if i < |items| {
      assert rest[0] == items[i];
    }
    assert items[..i + t][..i] == items[..i] && items[..i + t][i..] == items[i..i + t];
    DirentsOfSplit(items[..i + t], i);
  }

  /** One page of such a directory, for a reader that has seen the first `i` items. */
  method ReadPage(dh: DirHandle, items: seq<Item>, pos: nat, pagesize: nat, ghost i: nat)
    returns (ds: seq<Dirent>, ghost t: nat)
    requires dh.Valid() && ItemsOk(items) && Distinct(items) && i <= |items|
    requires From(items, pos) == items[i..] && (pos == 0 || !dh.filled) && pagesize <= UINT_MAX
    requires forall j :: 0 <= j < |items| ==> EntrySize(items[j].entry) <= pagesize
    modifies dh, dh.contents
    ensures dh.Valid() && (dh.contents == old(dh.contents) || fresh(dh.contents))
    ensures i + t <= |items| && (t > 0 <==> i < |items|) && (t > 0 ==> !dh.filled)
    ensures t == 0 ==> dh.filled && dh.Text() == []
    ensures ds == DirentsOf(items[i..i + t])
    ensures DirentsOf(items[..i]) + ds == DirentsOf(items[..i + t])
    ensures |ds| == t && (t > 0 ==> From(items, ds[t - 1].off) == items[i + t..])
  {
    hide Encode, DecodePage, DirentsOf, Page, Buffered, From;
    t := PagedReply(items, i, pagesize);
    PageRead(items, i, t);
    var ok, reply := dh.Readdir(Paged(From(items, pos)), pagesize, pos, true);
    if i == |items| {
      NothingLeft(pagesize, pos);
    }
    ds := DecodePage(reply);
  }

  /** The same reader, when the file system pages by itself with offsets of its own choice: it sees every
      entry exactly once, in order, and comes to an end. */
  method ReadPaged(dh: DirHandle, items: seq<Item>, pages: nat -> nat) returns (got: seq<Dirent>)
    requires dh.Valid() && ItemsOk(items) && Distinct(items)
    requires forall k, j :: 0 <= j < |items| ==> EntrySize(items[j].entry) <= pages(k)
    requires forall k :: pages(k) <= UINT_MAX
    modifies dh, dh.contents
    ensures got == DirentsOf(items)
    ensures dh.Valid() && (dh.contents == old(dh.contents) || fresh(dh.contents)) && dh.filled && dh.Text() == []
  {
    hide DirentsOf, From, ItemsOk, Distinct;
    got := [];
    var pos, k := 0, 0;
    ghost var i := 0;
    assert DirentsOf(items[..0]) == [] && From(items, 0) == items[0..] by { NothingListed(items); }
    while true
      invariant dh.Valid() && (dh.contents == old(dh.contents) || fresh(dh.contents))
      invariant i <= |items| && got == DirentsOf(items[..i]) && From(items, pos) == items[i..]
      invariant pos == 0 || !dh.filled
      decreases |items| - i
    {
      var ds, t := ReadPage(dh, items, pos, pages(k), i);
      if ds == [] {
        assert items[..i] == items;
        return;
      }
      got := got + ds;
      pos := ds[|ds| - 1].off;
      i := i + t;
      k := k + 1;
    }
  }

  /** The last off of a page is where the next one has to start. */
  lemma PageRead(items: seq<Item>, i: nat, t: nat)
    requires Distinct(items) && ItemsOk(items) && i + t <= |items|
    ensures |DirentsOf(items[i..i + t])| == t
    ensures t > 0 ==> From(items, DirentsOf(items[i..i + t])[t - 1].off) == items[i + t..]
  {
    if t > 0 {
      FromAt(items, i + t);
    }
  }

  lemma NothingListed(items: seq<Item>)
    ensures DirentsOf(items[..0]) == [] && From(items, 0) == items[0..]
  {
  }

  lemma NothingLeft(pagesize: nat, off: nat)
    ensures Buffered(Paged([]), pagesize) == [] && Page([], off, pagesize) == [] && DecodePage([]) == []
  {
  }

  /** Reading a directory to its end and going back to the position behind one of its entries, as
      seekdir allows: the page there is empty, although it should begin with the next entry. */
  method SeekBack(dh: DirHandle, items: seq<Item>, i: nat, pagesize: nat) returns (page: seq<Byte>)
    requires dh.Valid() && ItemsOk(items) && Distinct(items) && i + 1 < |items| && pagesize <= UINT_MAX
    requires forall j :: 0 <= j < |items| ==> EntrySize(items[j].entry) <= pagesize
    modifies dh, dh.contents
    ensures page == [] && !RightPage(From(items, items[i].off), page, pagesize)
  {
    hide Encode, DecodePage, DirentsOf, Page, RightPage, From;
    var got := ReadPaged(dh, items, _ => pagesize);
    FromAt(items, i + 1);
    var ok;
    ok, page := dh.Readdir(Paged(From(items, items[i].off)), pagesize, items[i].off, true);
    NothingLeft(pagesize, items[i].off);
  }
}
