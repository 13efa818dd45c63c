/** Path strings: built backwards from a node up to the root, and resolved forwards from the root. */
module PathText {
  import opened Prelude
  import opened LinearHash
  import opened NodeTree
  import opened NodeCache

  const NUL: char := '\0'

  // ---------------------------------------------------------------- the growing buffer

  /** The buffer of `try_get_path`: text is put in front of text, at the end of the buffer. */
  class PathBuf {
    var buf: array<char>
    var s: nat

    ghost predicate Valid()
      reads this, buf
    {
      256 <= buf.Length <= UINT_MAX && s < buf.Length && buf[buf.Length - 1] == NUL
    }

    /** The path so far, without its terminator. */
    ghost function Text(): string
      reads this, buf
      requires Valid()
    {
      buf[s..buf.Length - 1]
    }

    constructor ()
      ensures Valid() && fresh(buf) && Text() == []
    {
      var b := new char[256];
      b[255] := NUL;
      buf := b;
      s := 255;
    }

    /** `add_name`: a slash and a name in front of the path. Every write is inside the buffer as long as the
        whole path stays below 2^32. `memory` says whether the buffer can grow. */
    method AddName(name: Name, memory: bool) returns (ok: bool)
      requires Valid() && |Text()| + |name| + 2 <= UINT_MAX
      modifies this, buf
      ensures Valid() && (fresh(buf) || buf == old(buf))
      ensures ok ==> Text() == ['/'] + name + old(Text())
      ensures !ok ==> Text() == old(Text()) && !memory
    {
      var len := |name|;
      if s <= len {
        if !memory { return false; }
        Grow(len);
      }
      Prepend(name);
      return true;
    }

    /** What `try_get_path` hands out at the end. */
    method Path() returns (path: string)
      requires Valid()
      ensures path == if Text() == [] then "/" else Text()
    {
      path := if s == buf.Length - 1 then "/" else buf[s..buf.Length - 1];
    }

    method Grow(len: nat)
      requires Valid() && buf.Length - s + len + 1 <= UINT_MAX
      modifies this
      ensures Valid() && fresh(buf) && s > len && Text() == old(Text())
      ensures buf.Length - s == old(buf.Length - s)
    {
      var pathlen := buf.Length - s;
      var newsize := GrownSize(buf.Length, pathlen + len + 1);
      var newbuf := new char[newsize];
      forall i | 0 <= i < pathlen {
        newbuf[newsize - pathlen + i] := buf[s + i];
      }
      assert newbuf[newsize - pathlen + (pathlen - 1)] == buf[s + (pathlen - 1)];
      assert newbuf[newsize - pathlen..newsize - 1] == buf[s..buf.Length - 1];
      buf := newbuf;
      s := newsize - pathlen;
    }

    method Prepend(name: Name)
      requires Valid() && s > |name|
      modifies this`s, buf
      ensures Valid() && Text() == ['/'] + name + old(Text())
    {
      ghost var was := buf[..];
      var at := s - |name|;
      forall i | 0 <= i < |name| {
        buf[at + i] := name[i];
      }
      buf[at - 1] := '/';
      Joined(was, buf[..], s, name);
      s := at - 1;
    }
  }

  /** A slash and a name written in front of position `s`. */
  lemma {:induction false} Joined(was: string, now: string, s: nat, name: Name)
    requires |name| < s < |was| == |now|
    requires now[s - |name| - 1] == '/' && now[s - |name|..s] == name
    requires forall i :: s <= i < |was| ==> now[i] == was[i]
    ensures now[s - |name| - 1..|now| - 1] == ['/'] + name + was[s..|was| - 1]
  {
    var a := s - |name| - 1;
    assert now[a..|now| - 1] == now[a..a + 1] + now[a + 1..s] + now[s..|now| - 1];
    assert now[s..|now| - 1] == was[s..|was| - 1];
  }

  // ---------------------------------------------------------------- what the texts mean

  /** A slash before each name. */
  function Slashed(names: seq<Name>): string {
    if names == [] then [] else ['/'] + names[0] + Slashed(names[1..])
  }

  /** The path string of a list of names, from the root down. */
  function PathOf(names: seq<Name>): string {
    if names == [] then "/" else Slashed(names)
  }

  /** The names along a chain, from the root down. */
  ghost function NamesOf(nodes: Nodes, id: Id, c: seq<Id>): seq<Name>
    requires TopChain(nodes, id, c)
    decreases |c|
  {
    match nodes[id].link
    case None => []
    case Some(l) => NamesOf(nodes, l.parent, c[1..]) + [l.name]
  }

  lemma {:induction false} SlashedConcat(a: seq<Name>, b: seq<Name>)
    ensures Slashed(a + b) == Slashed(a) + Slashed(b)
    decreases |a|
  {
    if a == [] {
      assert a + b == b;
    } else {
      SlashedConcat(a[1..], b);
      assert (a + b)[1..] == a[1..] + b;
    }
  }

  predicate Plain(name: Name) {
    name != [] && '/' !in name
  }

  /** The length of the leading run without slashes. */
  function Run(s: string): (k: nat)
    ensures k <= |s| && (s != [] && s[0] != '/' ==> k > 0)
    ensures (forall i :: 0 <= i < k ==> s[i] != '/') && (k < |s| ==> s[k] == '/')
  {
    if s == [] || s[0] == '/' then 0 else 1 + Run(s[1..])
  }

  /** The pieces `strtok_r` cuts a string into at slashes: the non-empty runs between them. */
  function Tokens(s: string): seq<string>
    decreases |s|
  {
    if s == [] then []
    else if s[0] == '/' then Tokens(s[1..])
    else [s[..Run(s)]] + Tokens(s[Run(s)..])
  }

  /** Reading any text: slashes in front do not matter, a piece ends at a slash or at the end, and no piece is empty or
      has a slash in it. */
  lemma {:induction false} TokensRead(t: Name, s: string)
    ensures Tokens(['/'] + s) == Tokens(s)
    ensures Plain(t) ==> Tokens(t + ['/'] + s) == [t] + Tokens(s) && Tokens(t) == [t]
  {
    assert (['/'] + s)[1..] == s;
    if Plain(t) {
      RunOfName(t, ['/'] + s);
      RunOfName(t, []);
      var text := t + ['/'] + s;
      assert text == t + (['/'] + s);
      assert text[..|t|] == t && text[|t|..] == ['/'] + s;
      assert t + [] == t && t[..|t|] == t && t[|t|..] == [];
    }
  }

  lemma {:induction false} TokensPlain(s: string, i: nat)
    requires i < |Tokens(s)|
    ensures Plain(Tokens(s)[i])
    decreases |s|
  {
    if s[0] == '/' {
      TokensPlain(s[1..], i);
    } else if i > 0 {
      TokensPlain(s[Run(s)..], i - 1);
    }
  }

  lemma {:induction false} RunOfName(name: Name, rest: string)
    requires Plain(name) && (rest == [] || rest[0] == '/')
    ensures Run(name + rest) == |name|
  {
    var s := name + rest;
    forall i | 0 <= i < |name| ensures s[i] != '/' {
      assert s[i] == name[i] && name[i] in name;
    }
    assert rest != [] ==> s[|name|] == rest[0];
  }

  /** Cutting a path at its slashes gives its names. */
  lemma {:induction false} TokensOfPath(names: seq<Name>)
    requires forall i :: 0 <= i < |names| ==> Plain(names[i])
    ensures Tokens(Slashed(names)) == names
    decreases |names|
  {
    if names != [] {
      var n, rest := names[0], Slashed(names[1..]);
      TokensOfPath(names[1..]);
      RunOfName(n, rest);
      var s := ['/'] + n + rest;
      assert s == Slashed(names) && s[1..] == n + rest;
      assert (n + rest)[..|n|] == n && (n + rest)[|n|..] == rest;
      assert (n + rest)[0] == n[0] && n[0] in n;
      assert names == [n] + names[1..];
    }
  }

  /** Following names down from a node. */
  ghost function Descend(nodes: Nodes, id: Id, names: seq<Name>): Option<Id>
    decreases |names|
  {
    if names == [] then Some(id)
    else
      match NodeAt(nodes, Link(id, names[0]))
      case None => None
      case Some(x) => Descend(nodes, x, names[1..])
  }

  lemma {:induction false} DescendAppend(nodes: Nodes, id: Id, names: seq<Name>, last: Name)
    ensures Descend(nodes, id, names + [last]) ==
            if Descend(nodes, id, names).None? then None else NodeAt(nodes, Link(Descend(nodes, id, names).value, last))
    decreases |names|
  {
    var all := names + [last];
    if names == [] {
      assert all[0] == last && all[1..] == [];
    } else {
      assert all[0] == names[0] && all[1..] == names[1..] + [last];
      var x := NodeAt(nodes, Link(id, names[0]));
      if x.Some? { DescendAppend(nodes, x.value, names[1..], last); }
    }
  }

  /** Following a node's own names down from the root leads to the node. */
  lemma {:induction false} DescendNames(nodes: Nodes, id: Id, c: seq<Id>)
    requires UniqueNames(nodes) && TopChain(nodes, id, c) && c[|c| - 1] == ROOT
    ensures Descend(nodes, ROOT, NamesOf(nodes, id, c)) == Some(id)
    decreases |c|
  {
    match nodes[id].link
    case None =>
    case Some(l) =>
      assert c[1..][|c[1..]| - 1] == ROOT;
      DescendNames(nodes, l.parent, c[1..]);
      DescendAppend(nodes, ROOT, NamesOf(nodes, l.parent, c[1..]), l.name);
      NodeAtIs(nodes, l, id);
  }

  /** Printing and resolving undo each other: the path string of a node that is linked to the root through
      plain names resolves to that node. */
  lemma {:induction false} PathResolves(nodes: Nodes, id: Id)
    requires Tree(nodes) && id in nodes && Chain(nodes, id)[|Chain(nodes, id)| - 1] == ROOT
    requires forall i :: 0 <= i < |NamesOf(nodes, id, Chain(nodes, id))| ==>
        Plain(NamesOf(nodes, id, Chain(nodes, id))[i])
    ensures Descend(nodes, ROOT, Tokens(PathOf(NamesOf(nodes, id, Chain(nodes, id))))) == Some(id)
  {
    var names := NamesOf(nodes, id, Chain(nodes, id));
    TokensOfPath(names);
    assert Tokens("/") == [] by { assert "/"[1..] == []; }
    DescendNames(nodes, id, Chain(nodes, id));
  }

  // ---------------------------------------------------------------- the loops

  ghost function Plus(name: Option<Name>): seq<Name> {
    if name.Some? then [name.value] else []
  }

  /** The path-building part of `try_get_path`: the text of the chain from `base` (and of `name` below it), or
      None where the chain does not reach the root or memory runs out. */
  method BuildPath(nodes: Nodes, base: Id, name: Option<Name>, memory: nat -> bool) returns (path: Option<string>)
    requires Tree(nodes) && base in nodes
    requires |Slashed(NamesOf(nodes, base, Chain(nodes, base)) + Plus(name))| + 1 <= UINT_MAX
    ensures path.Some? ==> path.value == PathOf(NamesOf(nodes, base, Chain(nodes, base)) + Plus(name))
    ensures path.Some? ==> Chain(nodes, base)[|Chain(nodes, base)| - 1] == ROOT
    ensures path.None? ==> Chain(nodes, base)[|Chain(nodes, base)| - 1] != ROOT || exists k :: !memory(k)
  {
    hide Tree, Chain, NamesOf, Slashed, PathBuf.Valid, PathBuf.Text, Remains;
    ghost var c := Path(nodes, base);
    ghost var whole := Slashed(NamesOf(nodes, base, c) + Plus(name));
    StartUp(nodes, base, c, name);
    var b := new PathBuf();
    if name.Some? {
      var ok := b.AddName(name.value, memory(0));
      if !ok { return None; }
    }
    var node, k := base, 1;
    assert b.Text() == Slashed(Plus(name));
    while node != ROOT
      invariant b.Valid() && fresh(b) && fresh(b.buf) && Remains(nodes, node, c, b.Text(), whole)
      invariant |c| > 0 && c[|c| - 1] == Path(nodes, base)[|Path(nodes, base)| - 1]
      decreases |c|
    {
      StepUp(nodes, node, c, b.Text(), whole);
      if nodes[node].link.None? { return None; }
      var l := nodes[node].link.value;
      var ok := b.AddName(l.name, memory(k));
      k := k + 1;
      if !ok { return None; }
      c := c[1..];
      node := l.parent;
    }
    RootTop(nodes, c, b.Text(), whole);
    NonEmptyText(NamesOf(nodes, base, Path(nodes, base)) + Plus(name));
    var text := b.Path();
    path := Some(text);
  }

  /** What is written, and what the rest of the chain will add in front of it, make up the whole path. */
  ghost predicate Remains(nodes: Nodes, node: Id, c: seq<Id>, text: string, whole: string) {
    TopChain(nodes, node, c) && Slashed(NamesOf(nodes, node, c)) + text == whole
  }

  lemma {:induction false} StartUp(nodes: Nodes, base: Id, c: seq<Id>, name: Option<Name>)
    requires TopChain(nodes, base, c)
    ensures var whole := Slashed(NamesOf(nodes, base, c) + Plus(name));
      Remains(nodes, base, c, Slashed(Plus(name)), whole) && |Slashed(Plus(name))| <= |whole|
    ensures Slashed(Plus(name)) == if name.Some? then ['/'] + name.value + [] else []
  {
    SlashedConcat(NamesOf(nodes, base, c), Plus(name));
    OneSlashed(name);
  }

  lemma {:induction false} OneSlashed(name: Option<Name>)
    ensures Slashed(Plus(name)) == if name.Some? then ['/'] + name.value else []
  {
    if name.Some? {
      assert [name.value][1..] == [];
      assert Slashed([name.value]) == ['/'] + name.value + [];
    }
  }

  lemma {:induction false} StepUp(nodes: Nodes, node: Id, c: seq<Id>, text: string, whole: string)
    requires Remains(nodes, node, c, text, whole)
    ensures node in nodes && |c| > 0
    ensures nodes[node].link.None? ==> c == [node]
    ensures nodes[node].link.Some? ==>
      var l := nodes[node].link.value;
      && |c| > 1 && |text| + |l.name| + 1 <= |whole|
      && Remains(nodes, l.parent, c[1..], ['/'] + l.name + text, whole)
  {
    if nodes[node].link.Some? {
      var l := nodes[node].link.value;
      var upper := NamesOf(nodes, l.parent, c[1..]);
      SlashedConcat(upper, [l.name]);
      OneSlashed(Some(l.name));
      assert Slashed(upper) + (['/'] + l.name) + text == Slashed(upper) + (['/'] + l.name + text);
    }
  }

  lemma {:induction false} RootTop(nodes: Nodes, c: seq<Id>, text: string, whole: string)
    requires Tree(nodes) && Remains(nodes, ROOT, c, text, whole)
    ensures c == [ROOT] && text == whole
  {
  }

  lemma {:induction false} NonEmptyText(names: seq<Name>)
    ensures PathOf(names) == if Slashed(names) == [] then "/" else Slashed(names)
  {
  }

  /** `lookup_path_in_cache`: cut a copy of the path at its slashes and look up one piece after the other. */
  method ResolvePath(f: Fuse, path: string, memory: bool) returns (err: int, r: Option<Id>)
    requires f.Valid()
    ensures r == if memory then Descend(f.nodes, ROOT, Tokens(path)) else None
    ensures err == if !memory then -ENOMEM else if r.None? then -ENOENT else 0
  {
    if !memory { return -ENOMEM, None; }
    r := FollowPath(f, path);
    err := if r.None? then -ENOENT else 0;
  }

  /** The loop of `lookup_path_in_cache`. */
  method FollowPath(f: Fuse, path: string) returns (r: Option<Id>)
    requires f.Valid()
    ensures r == Descend(f.nodes, ROOT, Tokens(path))
  {
    hide NodeTable.Consistent, Agree, Tree, Tokens, Run;
    TreeNames(f.nodes);
    var ino, pos := ROOT, 0;
    assert path[0..] == path;
    while pos < |path|
      invariant 0 <= pos <= |path|
      invariant Descend(f.nodes, ROOT, Tokens(path)) == Descend(f.nodes, ino, Tokens(path[pos..]))
      decreases |path| - pos
    {
      TokenAt(path, pos);
      if path[pos] == '/' {
        pos := pos + 1;
      } else {
        var len := Run(path[pos..]);
        var element := path[pos..][..len];
        var node := f.LookupNode(Link(ino, element));
        if node.None? { return None; }
        ino := node.value;
        pos := pos + len;
      }
    }
    assert Tokens(path[pos..]) == [] by { NoTokens(path[pos..]); }
    r := Some(ino);
  }

  lemma {:induction false} NoTokens(s: string)
    requires s == []
    ensures Tokens(s) == []
  {
  }

  /** What `strtok_r` finds at a position: a slash to skip, or a whole piece. */
  lemma {:induction false} TokenAt(path: string, pos: nat)
    requires pos < |path|
    ensures path[pos] == '/' ==> Tokens(path[pos..]) == Tokens(path[pos + 1..])
    ensures path[pos] != '/' ==>
      var len := Run(path[pos..]);
      && len > 0 && pos + len <= |path|
      && Tokens(path[pos..]) == [path[pos..][..len]] + Tokens(path[pos + len..])
      && Tokens(path[pos..])[1..] == Tokens(path[pos + len..])
  {
    assert path[pos..][1..] == path[pos + 1..];
    if path[pos] != '/' {
      var len := Run(path[pos..]);
      assert path[pos..][len..] == path[pos + len..];
    }
  }
}
