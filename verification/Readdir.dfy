/** Directory reading: padded records in a page, and paging through a cached listing. */
module Readdir {
  import opened Prelude

  const NAME_OFFSET: nat := 24

  /** Align to 64 bits. */
  function Align(n: nat): (r: nat)
    ensures n <= r < n + 8 && r % 8 == 0
  {
    (n + 7) / 8 * 8
  }

  // ---------------------------------------------------------------- little-endian fields

  function Power(n: nat): nat {
    if n == 0 then 1 else 256 * Power(n - 1)
  }

  function ToBytes(x: nat, n: nat): (r: seq<byte>)
    ensures |r| == n
    decreases n
  {
    if n == 0 then [] else [(x % 256) as byte] + ToBytes(x / 256, n - 1)
  }

  function FromBytes(b: seq<byte>): nat {
    if b == [] then 0 else b[0] as nat + 256 * FromBytes(b[1..])
  }

  lemma {:induction false} BytesRoundTrip(x: nat, n: nat)
    requires x < Power(n)
    ensures FromBytes(ToBytes(x, n)) == x
    decreases n
  {
    if n > 0 {
      BytesRoundTrip(x / 256, n - 1);
      assert ToBytes(x, n)[1..] == ToBytes(x / 256, n - 1);
    }
  }

  // ---------------------------------------------------------------- records

  /** `struct fuse_dirent`. */
  datatype Dirent = Dirent(ino: nat, off: nat, kind: nat, name: seq<byte>)

  /** The fields fit their widths. */
  ghost predicate Fits(e: Dirent) {
    e.ino < Power(8) && e.off < Power(8) && e.kind < Power(4) && |e.name| < Power(4)
  }

  function RecordSize(namelen: nat): nat {
    Align(NAME_OFFSET + namelen)
  }

  function Zeros(n: nat): seq<byte> { seq(n, _ => 0 as byte) }

  /** What `fuse_add_direntry` writes. */
  function Record(e: Dirent): (r: seq<byte>)
    ensures |r| == RecordSize(|e.name|)
  {
    ToBytes(e.ino, 8) + ToBytes(e.off, 8) + ToBytes(|e.name|, 4) + ToBytes(e.kind, 4) + e.name +
    Zeros(RecordSize(|e.name|) - NAME_OFFSET - |e.name|)
  }

  function Page(es: seq<Dirent>): seq<byte> {
    if es == [] then [] else Record(es[0]) + Page(es[1..])
  }

  lemma {:induction false} PageAppend(es: seq<Dirent>, e: Dirent)
    ensures Page(es + [e]) == Page(es) + Record(e)
    decreases |es|
  {
    hide Record;
    if es == [] {
      assert es + [e] == [e] && [e][1..] == [];
    } else {
      PageAppend(es[1..], e);
      assert (es + [e])[1..] == es[1..] + [e];
      assert Record(es[0]) + (Page(es[1..]) + Record(e)) == Page(es) + Record(e);
    }
  }

  /** How the kernel reads a page: field by field, stepping by FUSE_DIRENT_SIZE. */
  function Parse(p: seq<byte>): Option<seq<Dirent>>
    decreases |p|
  {
    if p == [] then Some([])
    else if |p| < NAME_OFFSET then None
    else
      var namelen := FromBytes(p[16..20]);
      if RecordSize(namelen) > |p| then None
      else
        var rest := Parse(p[RecordSize(namelen)..]);
        if rest.None? then None
        else
          var e := Dirent(FromBytes(p[..8]), FromBytes(p[8..16]), FromBytes(p[20..24]), p[24..24 + namelen]);
          Some([e] + rest.value)
  }

  lemma {:induction false} RecordFields(e: Dirent, rest: seq<byte>)
    requires Fits(e)
    ensures var p := Record(e) + rest;
      && |p| >= NAME_OFFSET + |e.name|
      && FromBytes(p[..8]) == e.ino && FromBytes(p[8..16]) == e.off
      && FromBytes(p[16..20]) == |e.name| && FromBytes(p[20..24]) == e.kind
      && p[24..24 + |e.name|] == e.name && p[RecordSize(|e.name|)..] == rest
  {
    hide ToBytes, FromBytes, Align, Zeros, Power;
    BytesRoundTrip(e.ino, 8);
    BytesRoundTrip(e.off, 8);
    BytesRoundTrip(|e.name|, 4);
    BytesRoundTrip(e.kind, 4);
    Fields(ToBytes(e.ino, 8), ToBytes(e.off, 8), ToBytes(|e.name|, 4), ToBytes(e.kind, 4), e.name,
           Zeros(RecordSize(|e.name|) - NAME_OFFSET - |e.name|), rest);
  }

  /** Where the fields of a record are. */
  lemma {:induction false} Fields(
      a: seq<byte>, b: seq<byte>, c: seq<byte>, d: seq<byte>, name: seq<byte>, pad: seq<byte>, rest: seq<byte>)
    requires |a| == 8 && |b| == 8 && |c| == 4 && |d| == 4
    ensures var r := a + b + c + d + name + pad; var p := r + rest;
      && p[..8] == a && p[8..16] == b && p[16..20] == c && p[20..24] == d
      && p[24..24 + |name|] == name && p[|r|..] == rest
  {
  }

  /** A page reads back as the entries that were written into it. */
  lemma {:induction false} PageRoundTrip(es: seq<Dirent>)
    requires forall i :: 0 <= i < |es| ==> Fits(es[i])
    ensures Parse(Page(es)) == Some(es)
    decreases |es|
  {
    if es != [] {
      RecordFields(es[0], Page(es[1..]));
      PageRoundTrip(es[1..]);
      assert es == [es[0]] + es[1..];
    }
  }

  // ---------------------------------------------------------------- filling a page

  /** `struct fuse_direntry`: a cached entry. */
  datatype Entry = Entry(ino: nat, kind: nat, name: seq<byte>)

  /** The record of the entry at position `i`: its offset is the position after it. */
  function At(list: seq<Entry>, i: nat): Dirent
    requires i < |list|
  {
    Dirent(list[i].ino, i + 1, list[i].kind, list[i].name)
  }

  function Slice(list: seq<Entry>, lo: nat, hi: nat): (r: seq<Dirent>)
    requires lo <= hi <= |list|
    ensures |r| == hi - lo && forall k :: 0 <= k < hi - lo ==> r[k] == At(list, lo + k)
  {
    seq(hi - lo, k requires 0 <= k < hi - lo => At(list, lo + k))
  }

  /** How far a page of the given size gets from position `lo`, with `used` bytes already filled. */
  function Stop(list: seq<Entry>, lo: nat, size: nat, used: nat): (hi: nat)
    requires lo <= |list|
    ensures lo <= hi <= |list|
    decreases |list| - lo
  {
    if lo < |list| && used + RecordSize(|list[lo].name|) <= size
    then Stop(list, lo + 1, size, used + RecordSize(|list[lo].name|))
    else lo
  }

  /** `fuse_add_direntry`: write the record if it fits, and say how long it is either way. */
  method AddDirent(buf: array<byte>, at: nat, room: nat, e: Dirent) returns (len: nat)
    requires at + room <= buf.Length
    modifies buf
    ensures len == RecordSize(|e.name|)
    ensures buf[..at] == old(buf[..at])
    ensures len <= room ==> buf[at..at + len] == Record(e)
    ensures len > room ==> buf[..] == old(buf[..])
  {
    hide Record, Align;
    len := RecordSize(|e.name|);
    if len > room { return; }
    var record := Record(e);
    forall i | 0 <= i < len {
      buf[at + i] := record[i];
    }
    assert buf[at..at + len] == record;
  }

  /** `extend_contents`: a buffer of at least `minsize` bytes, with what was in the old one, or an error. */
  method ExtendContents(contents: array<byte>, minsize: nat, memory: bool) returns (r: array<byte>, err: int)
    requires minsize <= UINT_MAX && contents.Length <= UINT_MAX
    ensures err == if minsize > contents.Length && !memory then -ENOMEM else 0
    ensures if err != 0 || minsize <= contents.Length then r == contents else fresh(r)
    ensures err == 0 ==> r.Length >= minsize && r[..contents.Length] == contents[..]
  {
    if minsize <= contents.Length { return contents, 0; }
    if !memory { return contents, -ENOMEM; }
    var newsize := GrownSize(if contents.Length == 0 then 1024 else contents.Length, minsize);
    r := new byte[newsize];
    forall i | 0 <= i < contents.Length {
      r[i] := contents[i];
    }
    err := 0;
  }

  /** `readdir_fill_from_list` for plain readdir: make room, skip `off` entries, then add entries while they fit. */
  method FillFromList(list: seq<Entry>, off: nat, contents: array<byte>, needlen: nat, memory: bool)
    returns (buf: array<byte>, len: nat, err: int)
    requires needlen <= UINT_MAX && contents.Length <= UINT_MAX
    modifies contents
    ensures err == if needlen > contents.Length && !memory then -ENOMEM else 0
    ensures buf == contents || fresh(buf)
    ensures err != 0 ==> len == 0 && buf == contents && contents[..] == old(contents[..])
    ensures err == 0 ==> len <= needlen <= buf.Length
    ensures err == 0 ==>
      var lo := if off < |list| then off else |list|;
      buf[..len] == Page(Slice(list, lo, Stop(list, lo, needlen, 0)))
  {
    buf, err := ExtendContents(contents, needlen, memory);
    len := 0;
    if err == 0 {
      len := FillPage(list, off, buf, needlen);
    }
  }

  /** The loops of `readdir_fill_from_list`. */
  method FillPage(list: seq<Entry>, off: nat, buf: array<byte>, needlen: nat) returns (len: nat)
    requires needlen <= buf.Length
    modifies buf
    ensures len <= needlen
    ensures var lo := if off < |list| then off else |list|;
      buf[..len] == Page(Slice(list, lo, Stop(list, lo, needlen, 0)))
  {
    hide Page, Record, Stop;
    len := 0;
    var pos := 0;
    while pos < off && pos < |list|
      invariant 0 <= pos <= off && pos <= |list|
    {
      pos := pos + 1;
    }
    ghost var lo := pos;
    NoEntries(list, lo);
    while pos < |list|
      invariant lo <= pos <= |list| && len <= needlen
      invariant buf[..len] == Page(Slice(list, lo, pos))
      invariant Stop(list, lo, needlen, 0) == Stop(list, pos, needlen, len)
      decreases |list| - pos
    {
      var e := At(list, pos);
      PageAppend(Slice(list, lo, pos), e);
      assert Slice(list, lo, pos + 1) == Slice(list, lo, pos) + [e];
      StopStep(list, pos, needlen, len);
      var thislen := AddDirent(buf, len, needlen - len, e);
      if len + thislen > needlen { break; }
      assert buf[..len + thislen] == buf[..len] + buf[len..len + thislen];
      len := len + thislen;
      pos := pos + 1;
    }
    StopStep(list, pos, needlen, len);
  }

  lemma {:induction false} NoEntries(list: seq<Entry>, lo: nat)
    requires lo <= |list|
    ensures Page(Slice(list, lo, lo)) == []
  {
  }

  lemma {:induction false} StopStep(list: seq<Entry>, pos: nat, size: nat, used: nat)
    requires pos <= |list|
    ensures Stop(list, pos, size, used) ==
            if pos < |list| && used + RecordSize(|list[pos].name|) <= size
            then Stop(list, pos + 1, size, used + RecordSize(|list[pos].name|)) else pos
  {
  }

  lemma {:induction false} PageLength(list: seq<Entry>, lo: nat, hi: nat)
    requires lo < hi <= |list|
    ensures |Page(Slice(list, lo, hi))| == RecordSize(|list[lo].name|) + |Page(Slice(list, lo + 1, hi))|
  {
    assert Slice(list, lo, hi)[1..] == Slice(list, lo + 1, hi);
    assert Slice(list, lo, hi)[0] == At(list, lo);
  }

  /** A page holds as many entries as fit: they fit, and with the next one they would not. */
  lemma {:induction false} StopIsLongest(list: seq<Entry>, lo: nat, size: nat, used: nat)
    requires lo <= |list| && used <= size
    ensures var hi := Stop(list, lo, size, used);
      && used + |Page(Slice(list, lo, hi))| <= size
      && (hi < |list| ==> used + |Page(Slice(list, lo, hi + 1))| > size)
    decreases |list| - lo
  {
    hide Page, Record;
    var hi := Stop(list, lo, size, used);
    NoEntries(list, lo);
    if lo < |list| {
      var len := RecordSize(|list[lo].name|);
      NoEntries(list, lo + 1);
      if used + len <= size {
        StopIsLongest(list, lo + 1, size, used + len);
        PageLength(list, lo, hi);
        if hi < |list| { PageLength(list, lo, hi + 1); }
      } else {
        PageLength(list, lo, lo + 1);
      }
    }
  }

  /** What a reader of a filled page sees of each entry: its inode, type and name, and the offset after it. */
  lemma {:induction false} PageShows(list: seq<Entry>, lo: nat, hi: nat, i: nat)
    requires lo + i < hi <= |list| && forall k :: lo <= k < hi ==> Fits(At(list, k))
    ensures var es := Parse(Page(Slice(list, lo, hi)));
      && es.Some? && |es.value| == hi - lo
      && es.value[i].ino == list[lo + i].ino && es.value[i].kind == list[lo + i].kind
      && es.value[i].name == list[lo + i].name && es.value[i].off == lo + i + 1
  {
    hide Parse, Page;
    forall k | 0 <= k < hi - lo ensures Fits(Slice(list, lo, hi)[k]) {
      assert Slice(list, lo, hi)[k] == At(list, lo + k);
    }
    PageRoundTrip(Slice(list, lo, hi));
  }

  // ---------------------------------------------------------------- paging

  /** What a reader collects that starts at `lo` and continues each time from the last offset it saw, with
      pages of the given sizes, until a page comes back empty. */
  function ReadAll(list: seq<Entry>, lo: nat, sizes: nat -> nat, k: nat): seq<Dirent>
    requires lo <= |list|
    decreases |list| - lo
  {
    var hi := Stop(list, lo, sizes(k), 0);
    if hi == lo then []
    else Slice(list, lo, hi) + ReadAll(list, hi, sizes, k + 1)
  }

  /** The last offset of a page that is not empty is where the next page starts. */
  lemma {:induction false} LastOffset(list: seq<Entry>, lo: nat, hi: nat)
    requires lo < hi <= |list|
    ensures Slice(list, lo, hi)[hi - lo - 1].off == hi
  {
  }

  /** Every page that is asked for before the end has room for the entry it starts with. */
  predicate PagesFit(list: seq<Entry>, lo: nat, sizes: nat -> nat, k: nat)
    requires lo <= |list|
    decreases |list| - lo
  {
    lo == |list| ||
    var hi := Stop(list, lo, sizes(k), 0);
    RecordSize(|list[lo].name|) <= sizes(k) && hi > lo && PagesFit(list, hi, sizes, k + 1)
  }

  /** Paging is exact, every entry once and in order, if and only if every page has room for the entry it starts
      with. */
  lemma {:induction false} PagingIsExact(list: seq<Entry>, lo: nat, sizes: nat -> nat, k: nat)
    requires lo <= |list|
    ensures ReadAll(list, lo, sizes, k) == Slice(list, lo, |list|) <==> PagesFit(list, lo, sizes, k)
    decreases |list| - lo
  {
    var hi := Stop(list, lo, sizes(k), 0);
    if lo < |list| && hi > lo {
      PagingIsExact(list, hi, sizes, k + 1);
      var page, rest := Slice(list, lo, hi), Slice(list, hi, |list|);
      assert Slice(list, lo, |list|) == page + rest;
      Cancel(page, ReadAll(list, hi, sizes, k + 1), rest);
    }
  }

  lemma {:induction false} Cancel(a: seq<Dirent>, b: seq<Dirent>, c: seq<Dirent>)
    ensures a + b == a + c <==> b == c
  {
    assert (a + b)[|a|..] == b && (a + c)[|a|..] == c;
  }

  /** In particular if every page has room for the largest entry. */
  lemma {:induction false} LargestEntryFits(list: seq<Entry>, lo: nat, sizes: nat -> nat, k: nat)
    requires lo <= |list|
    requires forall j, i :: 0 <= i < |list| ==> RecordSize(|list[i].name|) <= sizes(j)
    ensures PagesFit(list, lo, sizes, k)
    decreases |list| - lo
  {
    if lo < |list| {
      assert RecordSize(|list[lo].name|) <= sizes(k);
      LargestEntryFits(list, Stop(list, lo, sizes(k), 0), sizes, k + 1);
    }
  }

  /** Without that room a reader stops early: a page too small for the next entry comes back empty, which is
      how the end is told. */
  lemma {:induction false} SmallPageEndsEarly(list: seq<Entry>, lo: nat, sizes: nat -> nat, k: nat)
    requires lo < |list|
    ensures ReadAll(list, lo, sizes, k) == [] <==> sizes(k) < RecordSize(|list[lo].name|)
  {
    var hi := Stop(list, lo, sizes(k), 0);
    if RecordSize(|list[lo].name|) <= sizes(k) {
      assert hi > lo;
      assert |Slice(list, lo, hi)| > 0;
    }
  }
}
