/** The reference-counted node tree of the high-level API, as values.

    A node is known by its `nodeid`; the map from ids to nodes is the set of live nodes. */
module NodeTree {
  import opened Prelude

  /** An inode number. */
  type Id = nat
  type Name = string

  const ROOT: Id := 1

  /** The parent and name of a node that is in the name table. */
  datatype Link = Link(parent: Id, name: Name)

  /** `struct node`: a node whose `name` and `parent` are NULL has no link, and so has the root. */
  datatype Node = Node(link: Option<Link>, nlookup: nat, refctr: nat, treelock: int, generation: nat)

  type Nodes = map<Id, Node>

  /** Temporary references taken by a lookup of "." (one token per reference). */
  type Dots = map<nat, Id>

  // ---------------------------------------------------------------- parent chains

  /** `c` lists `id` and its ancestors, up to and including the first node without a link. */
  ghost predicate TopChain(nodes: Nodes, id: Id, c: seq<Id>)
    decreases |c|
  {
    && |c| > 0 && c[0] == id && id in nodes
    && match nodes[id].link
       case None => |c| == 1
       case Some(l) => TopChain(nodes, l.parent, c[1..])
  }

  ghost predicate Acyclic(nodes: Nodes) {
    forall id :: id in nodes ==> exists c :: TopChain(nodes, id, c)
  }

  ghost function Chain(nodes: Nodes, id: Id): (c: seq<Id>)
    requires Acyclic(nodes) && id in nodes
    ensures TopChain(nodes, id, c)
  {
    var c :| TopChain(nodes, id, c);
    c
  }

  lemma {:induction false} ChainUnique(nodes: Nodes, id: Id, c: seq<Id>, d: seq<Id>)
    requires TopChain(nodes, id, c) && TopChain(nodes, id, d)
    ensures c == d
    decreases |c|
  {
    match nodes[id].link
    case None =>
    case Some(l) =>
      ChainUnique(nodes, l.parent, c[1..], d[1..]);
      assert c == [id] + c[1..] && d == [id] + d[1..];
  }

  lemma {:induction false} ChainSuffix(nodes: Nodes, id: Id, c: seq<Id>, i: nat)
    requires TopChain(nodes, id, c) && i < |c|
    ensures TopChain(nodes, c[i], c[i..])
    decreases i
  {
    if i > 0 {
      ChainSuffix(nodes, nodes[id].link.value.parent, c[1..], i - 1);
      assert c[1..][i - 1..] == c[i..];
    } else {
      assert c[0..] == c;
    }
  }

  /** Inside a chain, a node's successor is its parent, and only the last node has no link. */
  lemma {:induction false} ChainNext(nodes: Nodes, id: Id, c: seq<Id>, i: nat)
    requires TopChain(nodes, id, c) && i < |c|
    ensures c[i] in nodes
    ensures nodes[c[i]].link.None? <==> i == |c| - 1
    ensures i < |c| - 1 ==> nodes[c[i]].link.value.parent == c[i + 1]
  {
    ChainSuffix(nodes, id, c, i);
    if i < |c| - 1 {
      assert c[i..][1..] == c[i + 1..];
      assert |c[i..]| > 1;
    }
  }

  lemma {:induction false} ChainDistinct(nodes: Nodes, id: Id, c: seq<Id>)
    requires TopChain(nodes, id, c)
    ensures forall i, j :: 0 <= i < j < |c| ==> c[i] != c[j]
  {
    forall i, j | 0 <= i < j < |c| ensures c[i] != c[j] {
      ChainSuffix(nodes, id, c, i);
      ChainSuffix(nodes, id, c, j);
      assert |c[i..]| != |c[j..]|;
      if c[i] == c[j] {
        ChainUnique(nodes, c[i], c[i..], c[j..]);
      }
    }
  }

  /** A chain is unchanged by any update that keeps the links of its nodes. */
  lemma {:induction false} ChainFrame(a: Nodes, b: Nodes, id: Id, c: seq<Id>)
    requires TopChain(a, id, c)
    requires forall x :: x in c ==> x in a && x in b && a[x].link == b[x].link
    ensures TopChain(b, id, c)
    decreases |c|
  {
    assert id in c;
    match a[id].link
    case None =>
    case Some(l) => ChainFrame(a, b, l.parent, c[1..]);
  }

  lemma {:induction false} ChainMembers(nodes: Nodes, id: Id, c: seq<Id>)
    requires TopChain(nodes, id, c)
    ensures forall x :: x in c ==> x in nodes
  {
    forall x | x in c ensures x in nodes {
      var i :| 0 <= i < |c| && c[i] == x;
      ChainNext(nodes, id, c, i);
    }
  }

  /** A chain that passes through `x` ends with the chain of `x`. */
  lemma {:induction false} ChainThrough(nodes: Nodes, id: Id, c: seq<Id>, x: Id) returns (i: nat)
    requires TopChain(nodes, id, c) && x in c
    ensures i < |c| && c[i] == x && TopChain(nodes, x, c[i..])
  {
    i :| 0 <= i < |c| && c[i] == x;
    ChainSuffix(nodes, id, c, i);
  }

  /** A chain lists distinct live nodes, so it is no longer than the table. */
  lemma {:induction false} ChainLength(nodes: Nodes, id: Id, c: seq<Id>)
    requires TopChain(nodes, id, c)
    ensures |c| <= |nodes|
  {
    ChainDistinct(nodes, id, c);
    ChainMembers(nodes, id, c);
    DistinctSize(c);
    SubsetSize(Members(c), nodes.Keys);
    assert |nodes| == |nodes.Keys|;
  }

  // ---------------------------------------------------------------- names

  ghost predicate UniqueNames(nodes: Nodes) {
    forall a, b :: a in nodes && b in nodes && nodes[a].link.Some? && nodes[a].link == nodes[b].link ==> a == b
  }

  ghost predicate Bound(nodes: Nodes, l: Link, id: Id) {
    id in nodes && nodes[id].link == Some(l)
  }

  /** `lookup_node`: the node with the given parent and name. */
  ghost function NodeAt(nodes: Nodes, l: Link): (r: Option<Id>)
    ensures r.Some? ==> Bound(nodes, l, r.value)
    ensures r.None? ==> forall id :: !Bound(nodes, l, id)
  {
    if exists id :: Bound(nodes, l, id) then
      var id :| Bound(nodes, l, id);
      Some(id)
    else None
  }

  lemma {:induction false} NodeAtIs(nodes: Nodes, l: Link, id: Id)
    requires UniqueNames(nodes) && Bound(nodes, l, id)
    ensures NodeAt(nodes, l) == Some(id)
  {
  }

  // ---------------------------------------------------------------- lookup counts

  /** How many lookups of an id are outstanding; none of an id that is not live. */
  function Lookups(nodes: Nodes, x: Id): nat {
    if x in nodes then nodes[x].nlookup else 0
  }

  ghost predicate SameLookups(a: Nodes, b: Nodes) {
    forall x: Id :: Lookups(a, x) == Lookups(b, x)
  }

  /** One more lookup of `x`, which may be new; of the other nodes nothing changes but a reference count. */
  ghost predicate LookedUp(a: Nodes, b: Nodes, x: Id) {
    && b.Keys == a.Keys + {x} && Lookups(b, x) == Lookups(a, x) + 1
    && (forall n :: n in a && n != x ==> b[n] == a[n].(refctr := b[n].refctr))
  }

  // ---------------------------------------------------------------- well-formed trees

  ghost predicate Tree(nodes: Nodes) {
    && ROOT in nodes && nodes[ROOT].link.None? && nodes[ROOT].nlookup > 0
    && UniqueNames(nodes) && Acyclic(nodes)
  }

  lemma {:induction false} ParentLive(nodes: Nodes, id: Id)
    requires Acyclic(nodes) && id in nodes && nodes[id].link.Some?
    ensures nodes[id].link.value.parent in nodes
    ensures Chain(nodes, id) == [id] + Chain(nodes, nodes[id].link.value.parent)
  {
    var c := Chain(nodes, id);
    assert TopChain(nodes, nodes[id].link.value.parent, c[1..]);
    ChainUnique(nodes, nodes[id].link.value.parent, c[1..], Chain(nodes, nodes[id].link.value.parent));
    assert c == [id] + c[1..];
  }

  /** Every node of `r` has the chain it had in `a`. */
  ghost predicate SameChains(a: Nodes, r: Nodes) {
    Acyclic(a) && Acyclic(r) && r.Keys <= a.Keys && forall n :: n in r ==> Chain(r, n) == Chain(a, n)
  }

  lemma {:induction false} SameChainsTrans(a: Nodes, b: Nodes, c: Nodes)
    requires SameChains(a, b) && SameChains(b, c)
    ensures SameChains(a, c)
  {
  }

  /** Equal links (and equal ids) give equally well-formed trees. */
  lemma {:induction false} TreeFrame(a: Nodes, b: Nodes)
    requires Tree(a) && a.Keys == b.Keys && b[ROOT].nlookup > 0
    requires forall x :: x in a ==> a[x].link == b[x].link
    ensures Tree(b) && SameChains(a, b)
  {
    forall x | x in a ensures TopChain(b, x, Chain(a, x)) {
      ChainMembers(a, x, Chain(a, x));
      ChainFrame(a, b, x, Chain(a, x));
    }
    forall x | x in a ensures Acyclic(b) && Chain(a, x) == Chain(b, x) {
      ChainUnique(b, x, Chain(a, x), Chain(b, x));
    }
  }

  // ---------------------------------------------------------------- reference counts

  ghost function Children(nodes: Nodes, p: Id): set<Id> {
    set c | c in nodes && nodes[c].link.Some? && nodes[c].link.value.parent == p
  }

  ghost function DotsOn(dots: Dots, n: Id): set<nat> {
    set t | t in dots && dots[t] == n
  }

  /** What the reference count of a node should be: one for a positive lookup count, one per
      named child, one per temporary reference. */
  ghost function Refs(nodes: Nodes, dots: Dots, n: Id): nat
    requires n in nodes
  {
    (if nodes[n].nlookup > 0 then 1 else 0) + |Children(nodes, n)| + |DotsOn(dots, n)|
  }

  ghost predicate DotsLive(nodes: Nodes, dots: Dots) {
    forall t :: t in dots ==> dots[t] in nodes
  }

  /** The count of `n` is positive and exact, but for `owed` references that have just gone away
      and are still counted. */
  ghost predicate Counted(nodes: Nodes, dots: Dots, n: Id, owed: nat)
    requires n in nodes
  {
    nodes[n].refctr == Refs(nodes, dots, n) + owed && nodes[n].refctr > 0
  }

  /** At rest: every count is exact, and nothing unreferenced is kept. */
  ghost predicate RefOk(nodes: Nodes, dots: Dots) {
    && DotsLive(nodes, dots)
    && forall n :: n in nodes ==> Counted(nodes, dots, n, 0)
  }

  /** One reference to `x` has just gone away and is still counted. */
  ghost predicate RefOwed(nodes: Nodes, dots: Dots, x: Id) {
    && x in nodes && DotsLive(nodes, dots)
    && forall n :: n in nodes ==> Counted(nodes, dots, n, if n == x then 1 else 0)
  }

  function LowerRef(nodes: Nodes, id: Id): Nodes
    requires id in nodes && nodes[id].refctr > 0
  {
    nodes[id := nodes[id].(refctr := nodes[id].refctr - 1)]
  }

  /** `unref_node` with `delete_node`: drop one reference; at zero, take the node out and drop
      the reference it held on its parent. */
  function Unref(nodes: Nodes, id: Id): (r: Nodes)
    requires id in nodes
    decreases |nodes|
  {
    var n := nodes[id];
    if n.refctr > 1 then LowerRef(nodes, id)
    else
      var rest := nodes - {id};
      assert nodes.Keys == rest.Keys + {id};
      assert |rest.Keys| < |nodes.Keys|;
      match n.link
      case None => rest
      case Some(l) => if l.parent in rest then Unref(rest, l.parent) else rest
  }

  ghost predicate Referenced(nodes: Nodes, dots: Dots, n: Id)
    requires n in nodes
  {
    nodes[n].nlookup > 0 || DotsOn(dots, n) != {}
  }

  /** Somebody refers to `n` or to one of its descendants. */
  ghost predicate Needed(nodes: Nodes, dots: Dots, n: Id) {
    exists m, c :: m in nodes && Referenced(nodes, dots, m) && TopChain(nodes, m, c) && n in c
  }

  /** A chain that avoids a removed leaf survives its removal. */
  lemma {:induction false} LeafRemoval(nodes: Nodes, x: Id)
    requires Tree(nodes) && x in nodes && x != ROOT && Children(nodes, x) == {}
    ensures Tree(nodes - {x})
    ensures SameChains(nodes, nodes - {x})
  {
    var rest := nodes - {x};
    forall n | n in rest ensures TopChain(rest, n, Chain(nodes, n)) {
      var c := Chain(nodes, n);
      ChainMembers(nodes, n, c);
      LeafOffChain(nodes, n, c, x);
      ChainFrame(nodes, rest, n, c);
    }
    forall n | n in rest ensures Acyclic(rest) && Chain(rest, n) == Chain(nodes, n) {
      ChainUnique(rest, n, Chain(nodes, n), Chain(rest, n));
    }
  }

  lemma {:induction false} LeafOffChain(nodes: Nodes, n: Id, c: seq<Id>, x: Id)
    requires TopChain(nodes, n, c) && n != x && Children(nodes, x) == {}
    ensures x !in c
  {
    forall i | 0 <= i < |c| ensures c[i] != x {
      if i > 0 {
        ChainNext(nodes, n, c, i - 1);
        ChildOf(nodes, c[i - 1], c[i]);
      }
    }
  }

  lemma {:induction false} ChildOf(nodes: Nodes, c: Id, p: Id)
    requires c in nodes && nodes[c].link.Some? && nodes[c].link.value.parent == p
    ensures c in Children(nodes, p)
  {
  }

  ghost predicate IsParent(nodes: Nodes, p: Id, x: Id)
    requires x in nodes
  {
    nodes[x].link.Some? && nodes[x].link.value.parent == p
  }

  /** Two trees that differ in nothing but a link of `x` differ in nothing but one child of its
      parent. */
  lemma {:induction false} ChildrenDiffer(a: Nodes, b: Nodes, x: Id, n: Id)
    requires x in b && b.Keys == a.Keys + {x} && (x in a ==> a[x].link.None?)
    requires forall c :: c in a && c != x ==> a[c].link == b[c].link
    ensures |Children(b, n)| == |Children(a, n)| + (if IsParent(b, n, x) then 1 else 0)
  {
    ChildrenAre(a, b, x, n);
    if IsParent(b, n, x) {
      RemoveOne(Children(a, n), Children(b, n), x);
    }
  }

  lemma {:induction false} ChildrenAre(a: Nodes, b: Nodes, x: Id, n: Id)
    requires x in b && b.Keys == a.Keys + {x} && (x in a ==> a[x].link.None?)
    requires forall c :: c in a && c != x ==> a[c].link == b[c].link
    ensures x !in Children(a, n)
    ensures Children(b, n) == if IsParent(b, n, x) then Children(a, n) + {x} else Children(a, n)
  {
    forall c ensures c in Children(b, n) <==> c in Children(a, n) || (c == x && IsParent(b, n, x)) {
      assert c in b <==> c in a || c == x;
    }
  }

  /** Taking out a node changes only the count its parent should have. */
  lemma {:induction false} RefsWithout(nodes: Nodes, dots: Dots, x: Id, n: Id)
    requires x in nodes && n in nodes && n != x && Counted(nodes, dots, n, 0)
    ensures Counted(nodes - {x}, dots, n, if IsParent(nodes, n, x) then 1 else 0)
  {
    ChildrenDiffer(nodes - {x}, nodes, x, n);
  }

  /** Taking out a node nobody refers to leaves one reference owed on its parent. */
  lemma {:induction false} OwedByParent(nodes: Nodes, dots: Dots, x: Id)
    requires Acyclic(nodes) && RefOwed(nodes, dots, x) && nodes[x].refctr == 1
    ensures Children(nodes, x) == {} && !Referenced(nodes, dots, x)
    ensures nodes[x].link.None? ==> RefOk(nodes - {x}, dots)
    ensures nodes[x].link.Some? ==>
              nodes[x].link.value.parent in nodes - {x} && RefOwed(nodes - {x}, dots, nodes[x].link.value.parent)
  {
    var rest := nodes - {x};
    assert Counted(nodes, dots, x, 1);
    if nodes[x].link.Some? {
      ParentLive(nodes, x);
      if nodes[x].link.value.parent == x {
        ChildOf(nodes, x, x);
      }
    }
    forall t | t in dots ensures dots[t] in rest {
      assert t in DotsOn(dots, dots[t]);
    }
    forall n | n in rest ensures Counted(rest, dots, n, if IsParent(nodes, n, x) then 1 else 0) {
      assert Counted(nodes, dots, n, 0);
      RefsWithout(nodes, dots, x, n);
    }
  }

  /** What goes is unreferenced and has no surviving child. */
  ghost predicate OnlyGarbageGone(nodes: Nodes, dots: Dots, r: Nodes) {
    forall n :: n in nodes && n !in r ==> !Referenced(nodes, dots, n) && Children(nodes, n) !! r.Keys
  }

  /** What stays is unchanged but for its count. */
  ghost predicate Survivors(nodes: Nodes, r: Nodes) {
    && r.Keys <= nodes.Keys
    && forall n :: n in r ==> r[n] == nodes[n].(refctr := r[n].refctr)
  }

  /** Lowering one count changes neither links nor the counts that should be. */
  lemma {:induction false} DecrementRef(nodes: Nodes, dots: Dots, x: Id)
    requires Tree(nodes) && RefOwed(nodes, dots, x) && nodes[x].refctr > 1
    ensures var r := LowerRef(nodes, x);
            Tree(r) && RefOk(r, dots) && SameChains(nodes, r)
  {
    var r := LowerRef(nodes, x);
    TreeFrame(nodes, r);
    forall n | n in nodes ensures Counted(r, dots, n, 0) {
      assert Counted(nodes, dots, n, if n == x then 1 else 0);
      SameRefs(nodes, r, dots, n);
    }
  }

  /** The count a node should have depends on links and lookup counts only. */
  lemma {:induction false} SameRefs(a: Nodes, b: Nodes, dots: Dots, n: Id)
    requires a.Keys == b.Keys && n in a && a[n].nlookup == b[n].nlookup
    requires forall x :: x in a ==> a[x].link == b[x].link
    ensures Refs(a, dots, n) == Refs(b, dots, n)
  {
    assert Children(a, n) == Children(b, n);
  }

  /** A well-formed tree with exact counts, in which nothing changed in a survivor but its
      count, and from which only garbage has gone. */
  ghost predicate Collected(nodes: Nodes, dots: Dots, r: Nodes) {
    && Tree(r) && RefOk(r, dots) && SameChains(nodes, r)
    && Survivors(nodes, r) && OnlyGarbageGone(nodes, dots, r)
  }

  /** The cascade of deletions ends in such a tree. */
  lemma {:induction false} UnrefCorrect(nodes: Nodes, dots: Dots, x: Id)
    requires Tree(nodes) && RefOwed(nodes, dots, x)
    ensures Collected(nodes, dots, Unref(nodes, x))
    decreases |nodes|, 1
  {
    if nodes[x].refctr > 1 {
      DecrementRef(nodes, dots, x);
    } else {
      OwedByParent(nodes, dots, x);
      LeafRemoval(nodes, x);
      if nodes[x].link.None? {
        CollectedLeaf(nodes, dots, x);
      } else {
        UnrefUpwards(nodes, dots, x, nodes[x].link.value.parent);
      }
    }
  }

  lemma {:induction false} UnrefUpwards(nodes: Nodes, dots: Dots, x: Id, p: Id)
    requires x in nodes && nodes[x].refctr <= 1 && IsParent(nodes, p, x)
    requires !Referenced(nodes, dots, x) && Children(nodes, x) == {}
    requires SameChains(nodes, nodes - {x}) && Tree(nodes - {x}) && RefOwed(nodes - {x}, dots, p)
    ensures Collected(nodes, dots, Unref(nodes, x))
    decreases |nodes|, 0
  {
    var rest := nodes - {x};
    RemoveOne(rest.Keys, nodes.Keys, x);
    UnrefCorrect(rest, dots, p);
    CollectedStep(nodes, dots, x, Unref(rest, p));
  }

  lemma {:induction false} CollectedLeaf(nodes: Nodes, dots: Dots, x: Id)
    requires x in nodes && !Referenced(nodes, dots, x) && Children(nodes, x) == {}
    requires Tree(nodes - {x}) && SameChains(nodes, nodes - {x}) && RefOk(nodes - {x}, dots)
    ensures Collected(nodes, dots, nodes - {x})
  {
  }

  lemma {:induction false} CollectedStep(nodes: Nodes, dots: Dots, x: Id, r: Nodes)
    requires x in nodes && !Referenced(nodes, dots, x) && Children(nodes, x) == {}
    requires SameChains(nodes, nodes - {x}) && Collected(nodes - {x}, dots, r)
    ensures Collected(nodes, dots, r)
  {
    SameChainsTrans(nodes, nodes - {x}, r);
    GarbageStep(nodes, dots, x, r);
  }

  lemma {:induction false} GarbageStep(nodes: Nodes, dots: Dots, x: Id, r: Nodes)
    requires x in nodes && !Referenced(nodes, dots, x) && Children(nodes, x) == {} && x !in r
    requires OnlyGarbageGone(nodes - {x}, dots, r)
    ensures OnlyGarbageGone(nodes, dots, r)
  {
    var rest := nodes - {x};
    forall n | n in nodes && n !in r ensures !Referenced(nodes, dots, n) && Children(nodes, n) !! r.Keys {
      if n != x {
        assert Children(nodes, n) <= Children(rest, n) + {x};
      }
    }
  }

  /** Where every count is exact and positive, somebody refers to every node or to one below it. */
  lemma {:induction false} AllNeeded(nodes: Nodes, dots: Dots, n: Id)
    requires Tree(nodes) && RefOk(nodes, dots) && n in nodes
    ensures Needed(nodes, dots, n)
    decreases |nodes| - |Chain(nodes, n)|
  {
    var c := Chain(nodes, n);
    if Referenced(nodes, dots, n) {
      assert n in c;
    } else {
      assert Counted(nodes, dots, n, 0);
      assert Children(nodes, n) != {};
      var child :| child in Children(nodes, n);
      ParentLive(nodes, child);
      ChainLength(nodes, child, Chain(nodes, child));
      AllNeeded(nodes, dots, child);
      var m, d :| m in nodes && Referenced(nodes, dots, m) && TopChain(nodes, m, d) && child in d;
      var i := ChainThrough(nodes, m, d, child);
      ChainUnique(nodes, child, d[i..], Chain(nodes, child));
      assert d[i..][1] == n;
      assert d[i + 1] == n;
    }
  }

  /** No node that is needed is taken out: what goes is unreferenced and has no surviving child. */
  lemma {:induction false} NeededStays(nodes: Nodes, dots: Dots, r: Nodes, m: Id, c: seq<Id>)
    requires m in nodes && Referenced(nodes, dots, m) && TopChain(nodes, m, c)
    requires OnlyGarbageGone(nodes, dots, r)
    ensures forall n :: n in c ==> n in r
  {
    forall i | 0 <= i < |c| ensures c[i] in r {
      NeededStaysAt(nodes, dots, r, m, c, i);
    }
  }

  lemma {:induction false} NeededStaysAt(nodes: Nodes, dots: Dots, r: Nodes, m: Id, c: seq<Id>, i: nat)
    requires m in nodes && Referenced(nodes, dots, m) && TopChain(nodes, m, c) && i < |c|
    requires OnlyGarbageGone(nodes, dots, r)
    ensures c[i] in r
    decreases i
  {
    if i > 0 {
      NeededStaysAt(nodes, dots, r, m, c, i - 1);
      ChainNext(nodes, m, c, i - 1);
      ChainNext(nodes, m, c, i);
      assert c[i - 1] in Children(nodes, c[i]);
    }
  }

  /** A survivor that is needed among the survivors was needed before. */
  lemma {:induction false} NeededBefore(nodes: Nodes, dots: Dots, r: Nodes, n: Id)
    requires SameChains(nodes, r) && Survivors(nodes, r) && Needed(r, dots, n)
    ensures Needed(nodes, dots, n)
  {
    var m, c :| m in r && Referenced(r, dots, m) && TopChain(r, m, c) && n in c;
    ChainUnique(r, m, c, Chain(r, m));
    assert TopChain(nodes, m, c);
  }

  /** The cascade frees exactly the garbage: what stays is what somebody refers to, directly or
      through a descendant. */
  lemma {:induction false} UnrefCollects(nodes: Nodes, dots: Dots, x: Id)
    requires Tree(nodes) && RefOwed(nodes, dots, x)
    ensures forall n :: n in Unref(nodes, x) <==> n in nodes && Needed(nodes, dots, n)
  {
    var r := Unref(nodes, x);
    UnrefCorrect(nodes, dots, x);
    forall n ensures n in r <==> n in nodes && Needed(nodes, dots, n) {
      if n in r {
        AllNeeded(r, dots, n);
        NeededBefore(nodes, dots, r, n);
      } else if n in nodes && Needed(nodes, dots, n) {
        var m, c :| m in nodes && Referenced(nodes, dots, m) && TopChain(nodes, m, c) && n in c;
        NeededStays(nodes, dots, r, m, c);
      }
    }
  }
}
