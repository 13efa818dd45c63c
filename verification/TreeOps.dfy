/** The operations on the node tree that run under `f->lock`, as functions on the live nodes,
    with what each keeps: the tree stays well formed and every reference count stays exact. */
module TreeOps {
  import opened Prelude
  import opened NodeTree

  // ---------------------------------------------------------------- taking a name away

  function Unlinked(nodes: Nodes, x: Id): Nodes
    requires x in nodes
  {
    nodes[x := nodes[x].(link := None)]
  }

  /** `unhash_name`: take the name away and drop the reference on the parent. */
  function Detach(nodes: Nodes, x: Id): Nodes
    requires x in nodes
  {
    match nodes[x].link
    case None => nodes
    case Some(l) => if l.parent in Unlinked(nodes, x) then Unref(Unlinked(nodes, x), l.parent) else nodes
  }

  /** Without its name a node starts its own chain; chains that pass through it now end there. */
  lemma {:induction false} UnlinkedChain(nodes: Nodes, x: Id, n: Id, c: seq<Id>)
    requires x in nodes && TopChain(nodes, n, c)
    ensures x !in c ==> TopChain(Unlinked(nodes, x), n, c)
    ensures forall i :: 0 <= i < |c| && c[i] == x ==> TopChain(Unlinked(nodes, x), n, c[..i + 1])
    decreases |c|
  {
    var m := Unlinked(nodes, x);
    if x !in c {
      ChainMembers(nodes, n, c);
      ChainFrame(nodes, m, n, c);
    }
    forall i | 0 <= i < |c| && c[i] == x ensures TopChain(m, n, c[..i + 1]) {
      if i > 0 {
        ChainDistinct(nodes, n, c);
        UnlinkedChain(nodes, x, nodes[n].link.value.parent, c[1..]);
        assert c[1..][i - 1] == x;
        assert c[1..][..i] == c[..i + 1][1..];
      }
    }
  }

  lemma {:induction false} UnlinkedTree(nodes: Nodes, x: Id)
    requires Tree(nodes) && x in nodes
    ensures Tree(Unlinked(nodes, x))
    ensures forall n :: n in nodes && x !in Chain(nodes, n) ==> Chain(Unlinked(nodes, x), n) == Chain(nodes, n)
    ensures forall n, i :: n in nodes && 0 <= i < |Chain(nodes, n)| && Chain(nodes, n)[i] == x ==>
              Chain(Unlinked(nodes, x), n) == Chain(nodes, n)[..i + 1]
  {
    var m := Unlinked(nodes, x);
    forall n | n in m ensures exists c :: TopChain(m, n, c) {
      var c := Chain(nodes, n);
      UnlinkedChain(nodes, x, n, c);
      if x in c {
        var i :| 0 <= i < |c| && c[i] == x;
        assert TopChain(m, n, c[..i + 1]);
      } else {
        assert TopChain(m, n, c);
      }
    }
    forall n | n in m
      ensures x !in Chain(nodes, n) ==> Chain(m, n) == Chain(nodes, n)
      ensures forall i :: 0 <= i < |Chain(nodes, n)| && Chain(nodes, n)[i] == x ==>
          Chain(m, n) == Chain(nodes, n)[..i + 1]
    {
      var c := Chain(nodes, n);
      UnlinkedChain(nodes, x, n, c);
      if x !in c { ChainUnique(m, n, c, Chain(m, n)); }
      forall i | 0 <= i < |c| && c[i] == x ensures Chain(m, n) == c[..i + 1] {
        ChainUnique(m, n, c[..i + 1], Chain(m, n));
      }
    }
  }

  lemma {:induction false} UnlinkedOwes(nodes: Nodes, dots: Dots, x: Id)
    requires Tree(nodes) && RefOk(nodes, dots) && x in nodes && nodes[x].link.Some?
    ensures nodes[x].link.value.parent in nodes && nodes[x].link.value.parent != x
    ensures RefOwed(Unlinked(nodes, x), dots, nodes[x].link.value.parent)
  {
    var m := Unlinked(nodes, x);
    var p := nodes[x].link.value.parent;
    ParentLive(nodes, x);
    ChainDistinct(nodes, x, Chain(nodes, x));
    assert Chain(nodes, x)[1] == p;
    forall n | n in nodes ensures Counted(m, dots, n, if n == p then 1 else 0) {
      assert Counted(nodes, dots, n, 0);
      RefsUnlinked(nodes, dots, x, n);
    }
  }

  lemma {:induction false} RefsUnlinked(nodes: Nodes, dots: Dots, x: Id, n: Id)
    requires x in nodes && nodes[x].link.Some? && n in nodes
    ensures Refs(nodes, dots, n) ==
            Refs(Unlinked(nodes, x), dots, n) + (if n == nodes[x].link.value.parent then 1 else 0)
  {
    ChildrenDiffer(Unlinked(nodes, x), nodes, x, n);
  }

  /** Taking a name away keeps the tree and the counts; the node itself stays. */
  lemma {:induction false} DetachCorrect(nodes: Nodes, dots: Dots, x: Id)
    requires Tree(nodes) && RefOk(nodes, dots) && x in nodes && nodes[x].link.Some?
    ensures var r := Detach(nodes, x);
      && Tree(r) && RefOk(r, dots) && x in r && r[x].link.None?
      && Survivors(Unlinked(nodes, x), r) && OnlyGarbageGone(Unlinked(nodes, x), dots, r)
      && SameChains(Unlinked(nodes, x), r)
  {
    var m, p := Unlinked(nodes, x), nodes[x].link.value.parent;
    assert Tree(m) by { UnlinkedTree(nodes, x); }
    assert RefOwed(m, dots, p) by { UnlinkedOwes(nodes, dots, x); }
    UnrefCorrect(m, dots, p);
    assert x in Detach(nodes, x) by {
      DetachCollects(nodes, dots, x);
      StillNeeded(nodes, dots, x);
    }
  }

  /** Taking a name away frees exactly what nobody refers to any longer. */
  lemma {:induction false} DetachCollects(nodes: Nodes, dots: Dots, x: Id)
    requires Tree(nodes) && RefOk(nodes, dots) && x in nodes && nodes[x].link.Some?
    ensures forall n :: n in Detach(nodes, x) <==> n in nodes && Needed(Unlinked(nodes, x), dots, n)
  {
    UnlinkedTree(nodes, x);
    UnlinkedOwes(nodes, dots, x);
    UnrefCollects(Unlinked(nodes, x), dots, nodes[x].link.value.parent);
  }

  /** A node is still needed, by whoever needed it, after its own name is taken away. */
  lemma {:induction false} StillNeeded(nodes: Nodes, dots: Dots, x: Id)
    requires Tree(nodes) && RefOk(nodes, dots) && x in nodes
    ensures Needed(Unlinked(nodes, x), dots, x)
  {
    var m := Unlinked(nodes, x);
    AllNeeded(nodes, dots, x);
    var y, c :| y in nodes && Referenced(nodes, dots, y) && TopChain(nodes, y, c) && x in c;
    var i :| 0 <= i < |c| && c[i] == x;
    UnlinkedChain(nodes, x, y, c);
    assert c[..i + 1][i] == x;
    assert Referenced(m, dots, y);
  }

  /** With somebody else referring to the parent, nothing goes: the parent's count drops by one. */
  lemma {:induction false} DetachSimple(nodes: Nodes, dots: Dots, x: Id)
    requires Tree(nodes) && RefOk(nodes, dots) && x in nodes && nodes[x].link.Some?
    requires nodes[x].link.value.parent in nodes && nodes[nodes[x].link.value.parent].nlookup > 0
    ensures var p := nodes[x].link.value.parent;
            p != x && Detach(nodes, x) == Unlinked(nodes, x)[p := nodes[p].(refctr := nodes[p].refctr - 1)]
  {
    var m, p := Unlinked(nodes, x), nodes[x].link.value.parent;
    UnlinkedOwes(nodes, dots, x);
    OwedTwice(m, dots, p);
    hide Tree, RefOk, RefOwed, Detach;
    DetachLowers(nodes, x);
  }

  lemma {:induction false} DetachLowers(nodes: Nodes, x: Id)
    requires x in nodes && nodes[x].link.Some?
    requires var p := nodes[x].link.value.parent; p in nodes && p != x && nodes[p].refctr > 1
    ensures var p := nodes[x].link.value.parent;
            Detach(nodes, x) == Unlinked(nodes, x)[p := nodes[p].(refctr := nodes[p].refctr - 1)]
  {
  }

  lemma {:induction false} OwedTwice(nodes: Nodes, dots: Dots, p: Id)
    requires RefOwed(nodes, dots, p) && p in nodes && nodes[p].nlookup > 0
    ensures nodes[p].refctr > 1
  {
    assert Counted(nodes, dots, p, 1);
  }

  // ---------------------------------------------------------------- giving a name

  /** `hash_name`: bind the node under a parent and name, and take a reference on the parent. */
  function Attach(nodes: Nodes, x: Id, l: Link): Nodes
    requires x in nodes && l.parent in nodes
  {
    var named := nodes[x := nodes[x].(link := Some(l))];
    named[l.parent := named[l.parent].(refctr := named[l.parent].refctr + 1)]
  }

  /** Chains that ended at the node now go on with the chain of its new parent. */
  lemma {:induction false} AttachedChain(nodes: Nodes, x: Id, l: Link, n: Id, c: seq<Id>, up: seq<Id>)
    requires x in nodes && nodes[x].link.None? && l.parent in nodes
    requires TopChain(nodes, l.parent, up) && x !in up && TopChain(nodes, n, c)
    ensures x !in c ==> TopChain(Attach(nodes, x, l), n, c)
    ensures x in c ==> TopChain(Attach(nodes, x, l), n, c + up)
    decreases |c|
  {
    var m := Attach(nodes, x, l);
    if x !in c {
      ChainMembers(nodes, n, c);
      ChainFrame(nodes, m, n, c);
    } else if n == x {
      ChainMembers(nodes, l.parent, up);
      ChainFrame(nodes, m, l.parent, up);
      assert (c + up)[1..] == up;
    } else {
      AttachedChain(nodes, x, l, nodes[n].link.value.parent, c[1..], up);
      assert (c + up)[1..] == c[1..] + up;
    }
  }

  /** Binding a nameless node under a free name, below a parent that is not below it, keeps the
      tree well formed and the counts exact. */
  lemma {:induction false} AttachCorrect(nodes: Nodes, dots: Dots, x: Id, l: Link)
    requires Tree(nodes) && x in nodes && x != ROOT && nodes[x].link.None?
    requires l.parent in nodes && NodeAt(nodes, l).None? && x !in Chain(nodes, l.parent)
    ensures var r := Attach(nodes, x, l);
      && Tree(r) && (RefOk(nodes, dots) ==> RefOk(r, dots))
      && (forall n :: n in nodes && x !in Chain(nodes, n) ==> Chain(r, n) == Chain(nodes, n))
      && (forall n :: n in nodes && x in Chain(nodes, n) ==> Chain(r, n) == Chain(nodes, n) + Chain(nodes, l.parent))
  {
    var r := Attach(nodes, x, l);
    var up := Chain(nodes, l.parent);
    forall n | n in nodes
      ensures x !in Chain(nodes, n) ==> TopChain(r, n, Chain(nodes, n))
      ensures x in Chain(nodes, n) ==> TopChain(r, n, Chain(nodes, n) + up)
    {
      AttachedChain(nodes, x, l, n, Chain(nodes, n), up);
    }
    assert Acyclic(r);
    forall n | n in nodes
      ensures x !in Chain(nodes, n) ==> Chain(r, n) == Chain(nodes, n)
      ensures x in Chain(nodes, n) ==> Chain(r, n) == Chain(nodes, n) + up
    {
      ChainUnique(r, n, Chain(r, n), if x in Chain(nodes, n) then Chain(nodes, n) + up else Chain(nodes, n));
    }
    assert UniqueNames(r) by {
      forall n | n in nodes && n != x ensures nodes[n].link != Some(l) {
        assert !Bound(nodes, l, n);
      }
    }
    if RefOk(nodes, dots) {
      AttachCounts(nodes, dots, x, l);
    }
  }

  lemma {:induction false} AttachCounts(nodes: Nodes, dots: Dots, x: Id, l: Link)
    requires x in nodes && nodes[x].link.None? && l.parent in nodes && l.parent != x
    requires RefOk(nodes, dots)
    ensures RefOk(Attach(nodes, x, l), dots)
  {
    var r := Attach(nodes, x, l);
    forall n | n in nodes ensures Counted(r, dots, n, 0) {
      assert Counted(nodes, dots, n, 0);
      RefsAttached(nodes, dots, x, l, n);
    }
  }

  lemma {:induction false} RefsAttached(nodes: Nodes, dots: Dots, x: Id, l: Link, n: Id)
    requires x in nodes && nodes[x].link.None? && l.parent in nodes && n in nodes
    ensures Refs(Attach(nodes, x, l), dots, n) == Refs(nodes, dots, n) + (if n == l.parent then 1 else 0)
  {
    ChildrenDiffer(nodes, Attach(nodes, x, l), x, n);
  }

  // ---------------------------------------------------------------- lookups and forgets

  /** The new node of `find_node`, with its first lookup counted. */
  function Create(nodes: Nodes, x: Id, l: Link, generation: nat): Nodes
    requires l.parent in nodes && x !in nodes
  {
    Attach(nodes[x := Node(None, 1, 1, 0, generation)], x, l)
  }

  lemma {:induction false} FreshNode(nodes: Nodes, dots: Dots, x: Id, generation: nat)
    requires Tree(nodes) && RefOk(nodes, dots) && x !in nodes
    ensures var m := nodes[x := Node(None, 1, 1, 0, generation)];
      && Tree(m) && RefOk(m, dots)
      && (forall n :: n in nodes ==> Chain(m, n) == Chain(nodes, n)) && Chain(m, x) == [x]
  {
    var m := nodes[x := Node(None, 1, 1, 0, generation)];
    forall n | n in nodes ensures TopChain(m, n, Chain(nodes, n)) {
      ChainMembers(nodes, n, Chain(nodes, n));
      ChainFrame(nodes, m, n, Chain(nodes, n));
    }
    assert TopChain(m, x, [x]);
    assert Acyclic(m);
    forall n | n in m ensures Chain(m, n) == if n == x then [x] else Chain(nodes, n) {
      ChainUnique(m, n, Chain(m, n), if n == x then [x] else Chain(nodes, n));
    }
    FreshCounts(nodes, dots, x, generation);
  }

  lemma {:induction false} FreshCounts(nodes: Nodes, dots: Dots, x: Id, generation: nat)
    requires Acyclic(nodes) && RefOk(nodes, dots) && x !in nodes
    ensures RefOk(nodes[x := Node(None, 1, 1, 0, generation)], dots)
  {
    var m := nodes[x := Node(None, 1, 1, 0, generation)];
    assert DotsOn(dots, x) == {};
    forall k | k in nodes && nodes[k].link.Some? ensures nodes[k].link.value.parent != x {
      ParentLive(nodes, k);
    }
    assert Children(m, x) == {};
    forall n | n in nodes ensures Counted(m, dots, n, 0) {
      assert Children(m, n) == Children(nodes, n);
      assert Counted(nodes, dots, n, 0);
    }
  }

  lemma {:induction false} CreateShape(nodes: Nodes, x: Id, l: Link, generation: nat)
    requires x !in nodes && l.parent in nodes
    ensures var r := Create(nodes, x, l, generation);
      && LookedUp(nodes, r, x) && (forall n :: n in nodes && n != l.parent ==> r[n] == nodes[n])
      && r[x].treelock == 0 && r[x].generation == generation
  {
  }

  lemma {:induction false} CreateCorrect(nodes: Nodes, dots: Dots, x: Id, l: Link, generation: nat)
    requires Tree(nodes) && RefOk(nodes, dots) && x !in nodes && l.parent in nodes && NodeAt(nodes, l).None?
    ensures var r := Create(nodes, x, l, generation);
      && Tree(r) && RefOk(r, dots)
      && (forall n :: n in nodes ==> Chain(r, n) == Chain(nodes, n))
      && NodeAt(r, l) == Some(x) && r[x].treelock == 0 && r[x].generation == generation
      && LookedUp(nodes, r, x) && (forall n :: n in nodes && n != l.parent ==> r[n] == nodes[n])
  {
    hide LookedUp;
    CreateShape(nodes, x, l, generation);
    var m := nodes[x := Node(None, 1, 1, 0, generation)];
    FreshNode(nodes, dots, x, generation);
    forall n | n in nodes ensures x !in Chain(m, n) {
      ChainMembers(nodes, n, Chain(nodes, n));
    }
    forall k ensures !Bound(m, l, k) {
      assert k in nodes ==> !Bound(nodes, l, k);
    }
    AttachCorrect(m, dots, x, l);
    NodeAtIs(Create(nodes, x, l, generation), l, x);
  }

  /** `inc_nlookup`. */
  function IncLookup(nodes: Nodes, x: Id): Nodes
    requires x in nodes
  {
    var n := nodes[x];
    nodes[x := n.(nlookup := n.nlookup + 1, refctr := if n.nlookup == 0 then n.refctr + 1 else n.refctr)]
  }

  lemma {:induction false} IncLookupCorrect(nodes: Nodes, dots: Dots, x: Id)
    requires Tree(nodes) && RefOk(nodes, dots) && x in nodes
    ensures var r := IncLookup(nodes, x);
      && Tree(r) && RefOk(r, dots) && SameChains(nodes, r)
      && LookedUp(nodes, r, x) && (forall n :: n in nodes && n != x ==> r[n] == nodes[n])
      && r[x] == nodes[x].(nlookup := r[x].nlookup, refctr := r[x].refctr)
  {
    var r := IncLookup(nodes, x);
    TreeFrame(nodes, r);
    forall n | n in nodes ensures Counted(r, dots, n, 0) {
      assert Counted(nodes, dots, n, 0);
      assert Children(r, n) == Children(nodes, n);
    }
  }

  function LowerLookup(nodes: Nodes, x: Id, k: nat): Nodes
    requires x in nodes && k <= nodes[x].nlookup
  {
    nodes[x := nodes[x].(nlookup := nodes[x].nlookup - k)]
  }

  /** `forget_node` once it may proceed. */
  function Forget(nodes: Nodes, x: Id, k: nat): Nodes
    requires x in nodes && k <= nodes[x].nlookup
  {
    var m := LowerLookup(nodes, x, k);
    if k == nodes[x].nlookup then Unref(m, x) else m
  }

  /** After a forget the lookup reference, if that was the last one, is still to be dropped. */
  lemma {:induction false} ForgetOwes(nodes: Nodes, dots: Dots, x: Id, k: nat)
    requires Tree(nodes) && RefOk(nodes, dots) && x in nodes && x != ROOT && 1 <= k <= nodes[x].nlookup
    ensures var m := LowerLookup(nodes, x, k);
      && Tree(m) && SameChains(nodes, m)
      && (if k == nodes[x].nlookup then RefOwed(m, dots, x) else RefOk(m, dots))
  {
    var m := LowerLookup(nodes, x, k);
    TreeFrame(nodes, m);
    forall n | n in nodes ensures Counted(m, dots, n, if n == x && k == nodes[x].nlookup then 1 else 0) {
      assert Counted(nodes, dots, n, 0);
      assert Children(m, n) == Children(nodes, n);
    }
  }

  /** What a cascade takes away has no lookups. */
  lemma {:induction false} GarbageLookups(m: Nodes, dots: Dots, r: Nodes)
    requires Survivors(m, r) && OnlyGarbageGone(m, dots, r)
    ensures SameLookups(m, r)
  {
    forall y: Id ensures Lookups(m, y) == Lookups(r, y) {
      if y in m && y !in r {
        assert !Referenced(m, dots, y);
      }
    }
  }

  lemma {:induction false} ForgetLookups(nodes: Nodes, dots: Dots, x: Id, k: nat)
    requires Tree(nodes) && RefOk(nodes, dots) && x in nodes && x != ROOT && 1 <= k <= nodes[x].nlookup
    ensures forall y: Id :: Lookups(Forget(nodes, x, k), y) == Lookups(nodes, y) - (if y == x then k else 0)
  {
    hide Unref, Chain, TopChain, OnlyGarbageGone, Survivors;
    ForgetOwes(nodes, dots, x, k);
    var m := LowerLookup(nodes, x, k);
    assert forall y: Id :: Lookups(m, y) == Lookups(nodes, y) - (if y == x then k else 0);
    if k == nodes[x].nlookup {
      UnrefCorrect(m, dots, x);
      GarbageLookups(m, dots, Unref(m, x));
    }
  }

  /** A forget keeps the tree and the counts, and takes exactly its number off the node's lookups. */
  lemma {:induction false} ForgetCorrect(nodes: Nodes, dots: Dots, x: Id, k: nat)
    requires Tree(nodes) && RefOk(nodes, dots) && x in nodes && x != ROOT && 1 <= k <= nodes[x].nlookup
    ensures var r := Forget(nodes, x, k);
      && Tree(r) && RefOk(r, dots)
      && Survivors(LowerLookup(nodes, x, k), r) && OnlyGarbageGone(LowerLookup(nodes, x, k), dots, r)
      && SameChains(nodes, r)
      && (forall y: Id :: Lookups(r, y) == Lookups(nodes, y) - (if y == x then k else 0))
  {
    hide Lookups;
    assert forall y: Id :: Lookups(Forget(nodes, x, k), y) == Lookups(nodes, y) - (if y == x then k else 0) by {
      ForgetLookups(nodes, dots, x, k);
    }
    ForgetOwes(nodes, dots, x, k);
    if k == nodes[x].nlookup {
      var m := LowerLookup(nodes, x, k);
      UnrefCorrect(m, dots, x);
      SameChainsTrans(nodes, m, Unref(m, x));
    }
  }

  /** What stays after a forget is exactly what somebody still refers to, directly or through a
      descendant. */
  lemma {:induction false} ForgetCollects(nodes: Nodes, dots: Dots, x: Id, k: nat)
    requires Tree(nodes) && RefOk(nodes, dots) && x in nodes && x != ROOT && 1 <= k <= nodes[x].nlookup
    ensures forall n :: n in Forget(nodes, x, k) <==> n in nodes && Needed(LowerLookup(nodes, x, k), dots, n)
  {
    var m := LowerLookup(nodes, x, k);
    ForgetOwes(nodes, dots, x, k);
    if k == nodes[x].nlookup {
      UnrefCollects(m, dots, x);
    } else {
      forall n | n in m ensures Needed(m, dots, n) { AllNeeded(m, dots, n); }
    }
  }

  /** Taking a temporary reference for a lookup of ".". */
  function DotRef(nodes: Nodes, x: Id): Nodes
    requires x in nodes
  {
    nodes[x := nodes[x].(refctr := nodes[x].refctr + 1)]
  }

  lemma {:induction false} RefsDot(nodes: Nodes, dots: Dots, x: Id, t: nat, n: Id)
    requires t !in dots && n in nodes
    ensures Refs(nodes, dots[t := x], n) == Refs(nodes, dots, n) + (if n == x then 1 else 0)
  {
    var a, b := DotsOn(dots, n), DotsOn(dots[t := x], n);
    if n == x {
      assert b == a + {t};
    } else {
      assert b == a;
    }
  }

  lemma {:induction false} DotRefCorrect(nodes: Nodes, dots: Dots, x: Id, t: nat)
    requires Tree(nodes) && RefOk(nodes, dots) && x in nodes && t !in dots
    ensures var r := DotRef(nodes, x);
      Tree(r) && RefOk(r, dots[t := x]) && SameChains(nodes, r)
  {
    var r := DotRef(nodes, x);
    TreeFrame(nodes, r);
    forall n | n in nodes ensures Counted(r, dots[t := x], n, 0) {
      assert Counted(nodes, dots, n, 0);
      SameRefs(nodes, r, dots[t := x], n);
      RefsDot(nodes, dots, x, t, n);
    }
  }

  lemma {:induction false} DotUnrefCorrect(nodes: Nodes, dots: Dots, t: nat)
    requires Tree(nodes) && RefOk(nodes, dots) && t in dots
    ensures dots[t] in nodes && RefOwed(nodes, dots - {t}, dots[t])
    ensures var r := Unref(nodes, dots[t]);
      && Tree(r) && RefOk(r, dots - {t}) && SameChains(nodes, r)
      && Survivors(nodes, r) && OnlyGarbageGone(nodes, dots - {t}, r)
  {
    var x := dots[t];
    forall n | n in nodes ensures Counted(nodes, dots - {t}, n, if n == x then 1 else 0) {
      assert Counted(nodes, dots, n, 0);
      assert dots == (dots - {t})[t := x];
      RefsDot(nodes, dots - {t}, x, t, n);
    }
    UnrefCorrect(nodes, dots - {t}, x);
  }
}
