/** Tree changes made while paths are locked: an operation renames or unlinks only nodes it has
    write-locked, lookups create and forgets delete, and no outstanding hold is disturbed. */
module LockTree {
  import opened Prelude
  import opened NodeTree
  import opened TreeOps
  import opened TreeLocks
  import opened LockCore

  // ---------------------------------------------------------------- frames

  /** The same lock words on the same nodes encode the same holds. */
  lemma {:induction false} SameWords(a: Nodes, b: Nodes, holds: Holds)
    requires Encoded(a, holds) && b.Keys <= a.Keys
    requires forall n :: n in b ==> b[n].treelock == a[n].treelock
    ensures Encoded(b, holds)
  {
    forall n | n in b ensures EncodedAt(b, holds, n) {
      assert EncodedAt(a, holds, n);
    }
  }

  /** Claims survive when nothing new is bound at them. */
  lemma {:induction false} FewerNames(a: Nodes, b: Nodes, holds: Holds)
    requires ClaimsOk(a, holds) && UniqueNames(a)
    requires forall l, y :: Bound(b, l, y) ==> Bound(a, l, y)
    ensures ClaimsOk(b, holds)
  {
    forall k | k in holds ensures ClaimOk(b, holds, k) {
      assert ClaimOk(a, holds, k);
      if holds[k].claim.Some? && NodeAt(b, holds[k].claim.value).Some? {
        NodeAtIs(a, holds[k].claim.value, NodeAt(b, holds[k].claim.value).value);
      }
    }
  }

  /** Holds survive when the chains of their bases do. */
  lemma {:induction false} HoldsFrame(a: Nodes, b: Nodes, holds: Holds)
    requires Acyclic(a) && Acyclic(b) && HoldsOk(a, holds)
    requires forall k :: k in holds ==>
               holds[k].base in b && Chain(b, holds[k].base) == Chain(a, holds[k].base) && b[holds[k].base].nlookup > 0
    requires forall k :: k in holds && holds[k].wnode.Some? ==>
               holds[k].wnode.value in b && b[holds[k].wnode.value].nlookup > 0
    ensures HoldsOk(b, holds)
  {
    forall k | k in holds ensures HoldOk(b, holds[k]) {
      assert HoldOk(a, holds[k]);
    }
  }

  /** A write-locked node is on no held chain. */
  lemma {:induction false} OwnedOffChains(nodes: Nodes, holds: Holds, dots: Dots, op: nat, x: Id)
    requires Core(nodes, holds, dots) && Owns(holds, op, x)
    ensures x in nodes && x != ROOT && nodes[x].nlookup > 0 && nodes[x].treelock == TREELOCK_WRITE
    ensures forall k :: k in holds ==> x !in Chain(nodes, holds[k].base)
  {
    var j :| j in holds && j / 2 == op && holds[j].wnode == Some(x);
    assert HoldOk(nodes, holds[j]);
    ReleaseAsserts(nodes, holds, j);
    forall k | k in holds ensures x !in Chain(nodes, holds[k].base) {
      assert HoldOk(nodes, holds[k]);
      WriterExcludes(nodes, holds, j, k, x);
    }
  }

  // ---------------------------------------------------------------- taking the name of an owned node

  /** The nodes differ in nothing but the link of `x` and reference counts. */
  ghost predicate Relinked(a: Nodes, b: Nodes, x: Id) {
    && a.Keys == b.Keys
    && forall n :: n in a ==>
         b[n] == a[n].(refctr := b[n].refctr, link := if n == x then b[n].link else a[n].link)
  }

  lemma {:induction false} DetachShape(nodes: Nodes, dots: Dots, x: Id)
    requires Tree(nodes) && RefOk(nodes, dots) && x in nodes && nodes[x].link.Some?
    requires nodes[x].link.value.parent in nodes && nodes[nodes[x].link.value.parent].nlookup > 0
    ensures Relinked(nodes, Detach(nodes, x), x) && Detach(nodes, x)[x].link.None?
    ensures forall l, y :: Bound(Detach(nodes, x), l, y) <==> Bound(nodes, l, y) && y != x
  {
    DetachSimple(nodes, dots, x);
  }

  lemma {:induction false} DetachCore(nodes: Nodes, holds: Holds, dots: Dots, op: nat, x: Id)
    requires Core(nodes, holds, dots) && Owns(holds, op, x) && x in nodes && nodes[x].link.Some?
    requires nodes[x].link.value.parent in nodes && nodes[nodes[x].link.value.parent].nlookup > 0
    ensures Core(Detach(nodes, x), holds, dots)
    ensures Relinked(nodes, Detach(nodes, x), x) && Detach(nodes, x)[x].link.None?
    ensures forall l, y :: Bound(Detach(nodes, x), l, y) <==> Bound(nodes, l, y) && y != x
  {
    hide RefOk, Encoded, HoldsOk, ClaimsOk, Detach, Chain, TopChain;
    var r := Detach(nodes, x);
    DetachShape(nodes, dots, x);
    assert Tree(r) && RefOk(r, dots) && SameChains(Unlinked(nodes, x), r) by { DetachCorrect(nodes, dots, x); }
    assert Encoded(r, holds) by { SameWords(nodes, r, holds); }
    assert ClaimsOk(r, holds) by { FewerNames(nodes, r, holds); }
    assert HoldsOk(r, holds) by {
      OwnedOffChains(nodes, holds, dots, op, x);
      UnlinkedTree(nodes, x);
      HoldBases(nodes, holds);
      HoldsFrame(nodes, r, holds);
    }
  }

  lemma {:induction false} HoldBases(nodes: Nodes, holds: Holds)
    requires Acyclic(nodes) && HoldsOk(nodes, holds)
    ensures forall k :: k in holds ==> holds[k].base in nodes && nodes[holds[k].base].nlookup > 0
    ensures forall k :: k in holds && holds[k].wnode.Some? ==>
              holds[k].wnode.value in nodes && nodes[holds[k].wnode.value].nlookup > 0
  {
    forall k | k in holds
      ensures holds[k].base in nodes && nodes[holds[k].base].nlookup > 0
      ensures holds[k].wnode.Some? ==> holds[k].wnode.value in nodes && nodes[holds[k].wnode.value].nlookup > 0
    {
      assert HoldOk(nodes, holds[k]);
    }
  }

  // ---------------------------------------------------------------- naming an owned node

  lemma {:induction false} AttachShape(nodes: Nodes, x: Id, l: Link)
    requires x in nodes && nodes[x].link.None? && l.parent in nodes
    ensures Relinked(nodes, Attach(nodes, x, l), x)
    ensures forall k, y :: Bound(Attach(nodes, x, l), k, y) <==> Bound(nodes, k, y) || (k == l && y == x)
  {
    var r := Attach(nodes, x, l);
    forall k, y ensures Bound(r, k, y) <==> Bound(nodes, k, y) || (k == l && y == x) {
      if y in nodes {
        assert r[y].link == if y == x then Some(l) else nodes[y].link;
      }
    }
  }

  /** An owned node may be bound below any directory whose path its operation holds: the directory
      cannot be below the node, because the node is write-locked and the directory's whole chain
      is read-locked. */
  lemma {:induction false} AttachCore(nodes: Nodes, holds: Holds, dots: Dots, op: nat, x: Id, l: Link, d: nat)
    requires Core(nodes, holds, dots) && Owns(holds, op, x) && x in nodes && nodes[x].link.None?
    requires d in holds && holds[d].base == l.parent && l.parent in nodes && NodeAt(nodes, l).None?
    requires forall k :: k in holds && holds[k].claim == Some(l) ==> k / 2 == op
    ensures Core(Attach(nodes, x, l), holds, dots)
    ensures Relinked(nodes, Attach(nodes, x, l), x)
    ensures forall k, y :: Bound(Attach(nodes, x, l), k, y) <==> Bound(nodes, k, y) || (k == l && y == x)
  {
    hide RefOk, Encoded, HoldsOk, ClaimsOk, Attach, Chain, TopChain;
    var r := Attach(nodes, x, l);
    AttachShape(nodes, x, l);
    OwnedOffChains(nodes, holds, dots, op, x);
    AttachCorrect(nodes, dots, x, l);
    assert Encoded(r, holds) by { SameWords(nodes, r, holds); }
    assert HoldsOk(r, holds) by {
      HoldBases(nodes, holds);
      HoldsFrame(nodes, r, holds);
    }
    assert ClaimsOk(r, holds) by { AttachClaims(nodes, r, holds, op, x, l); }
  }

  lemma {:induction false} AttachClaims(nodes: Nodes, r: Nodes, holds: Holds, op: nat, x: Id, l: Link)
    requires ClaimsOk(nodes, holds) && UniqueNames(nodes) && UniqueNames(r) && Owns(holds, op, x)
    requires forall k, y :: Bound(r, k, y) <==> Bound(nodes, k, y) || (k == l && y == x)
    requires forall k :: k in holds && holds[k].claim == Some(l) ==> k / 2 == op
    ensures ClaimsOk(r, holds)
  {
    forall k | k in holds ensures ClaimOk(r, holds, k) {
      assert ClaimOk(nodes, holds, k);
      if holds[k].claim.Some? && NodeAt(r, holds[k].claim.value).Some? {
        var y := NodeAt(r, holds[k].claim.value).value;
        if Bound(nodes, holds[k].claim.value, y) {
          NodeAtIs(nodes, holds[k].claim.value, y);
        }
      }
    }
  }

  // ---------------------------------------------------------------- lookups

  lemma {:induction false} CreateCore(nodes: Nodes, holds: Holds, dots: Dots, x: Id, l: Link, generation: nat)
    requires Core(nodes, holds, dots) && x !in nodes && l.parent in nodes && NodeAt(nodes, l).None?
    requires forall k :: k in holds ==> holds[k].claim != Some(l)
    ensures var r := Create(nodes, x, l, generation);
      Core(r, holds, dots) && r.Keys == nodes.Keys + {x} && r[x] == Node(Some(l), 1, 1, 0, generation)
      && (forall n :: n in nodes ==> r[n] == nodes[n].(refctr := r[n].refctr) && Chain(r, n) == Chain(nodes, n))
  {
    hide RefOk, Encoded, HoldsOk, ClaimsOk, Chain, TopChain;
    var r := Create(nodes, x, l, generation);
    CreateCorrect(nodes, dots, x, l, generation);
    HoldBases(nodes, holds);
    assert Encoded(r, holds) by { FreshWord(nodes, r, holds, x); }
    assert HoldsOk(r, holds) by { HoldsFrame(nodes, r, holds); }
    assert ClaimsOk(r, holds) by { NewName(nodes, r, holds, x, l); }
  }

  /** A new node is held by nobody, and its word is zero. */
  lemma {:induction false} FreshWord(nodes: Nodes, r: Nodes, holds: Holds, x: Id)
    requires Acyclic(nodes) && Encoded(nodes, holds) && HoldsOk(nodes, holds)
    requires x !in nodes && r.Keys == nodes.Keys + {x} && r[x].treelock == 0
    requires forall n :: n in nodes ==> r[n].treelock == nodes[n].treelock
    ensures Encoded(r, holds)
  {
    forall k | k in holds ensures x !in holds[k].chain && holds[k].wnode != Some(x) {
      assert HoldOk(nodes, holds[k]);
      ChainMembers(nodes, holds[k].base, Chain(nodes, holds[k].base));
      assert forall n :: n in holds[k].chain ==> n in Chain(nodes, holds[k].base);
    }
    assert Readers(holds, x) == {} && Writers(holds, x) == {};
    forall n | n in r ensures EncodedAt(r, holds, n) {
      if n in nodes { assert EncodedAt(nodes, holds, n); }
    }
  }

  lemma {:induction false} NewName(nodes: Nodes, r: Nodes, holds: Holds, x: Id, l: Link)
    requires ClaimsOk(nodes, holds) && UniqueNames(nodes)
    requires x !in nodes && r.Keys == nodes.Keys + {x} && r[x].link == Some(l)
    requires forall n :: n in nodes ==> r[n].link == nodes[n].link
    requires forall k :: k in holds ==> holds[k].claim != Some(l)
    ensures ClaimsOk(r, holds)
  {
    forall k | k in holds ensures ClaimOk(r, holds, k) {
      assert ClaimOk(nodes, holds, k);
      if holds[k].claim.Some? && NodeAt(r, holds[k].claim.value).Some? {
        NodeAtIs(nodes, holds[k].claim.value, NodeAt(r, holds[k].claim.value).value);
      }
    }
  }

  // ---------------------------------------------------------------- counts only

  /** Nothing changed but counts, and no lookup count dropped to zero. */
  ghost predicate Recounted(a: Nodes, b: Nodes) {
    && a.Keys == b.Keys
    && forall n :: n in a ==>
         b[n] == a[n].(refctr := b[n].refctr, nlookup := b[n].nlookup) && (a[n].nlookup > 0 ==> b[n].nlookup > 0)
  }

  lemma {:induction false} RecountedCore(a: Nodes, b: Nodes, holds: Holds, dots: Dots, dots': Dots)
    requires Core(a, holds, dots) && Recounted(a, b) && RefOk(b, dots')
    ensures Core(b, holds, dots') && SameChains(a, b)
  {
    hide RefOk, Encoded, HoldsOk, ClaimsOk, Chain, TopChain;
    TreeFrame(a, b);
    HoldBases(a, holds);
    assert Encoded(b, holds) by { SameWords(a, b, holds); }
    assert HoldsOk(b, holds) by { HoldsFrame(a, b, holds); }
    assert ClaimsOk(b, holds) by { FewerNames(a, b, holds); }
  }

  // ---------------------------------------------------------------- deletions

  /** A cascade that starts from a node nobody holds takes out only nodes nobody holds, and leaves
      every hold as it was. In particular the assert of `delete_node` holds for each of them. */
  lemma {:induction false} CollectKeepsHeld(nodes: Nodes, holds: Holds, dots: Dots, r: Nodes, k: nat)
    requires Acyclic(nodes) && OnlyGarbageGone(nodes, dots, r) && k in holds && HoldOk(nodes, holds[k])
    ensures forall n :: n in holds[k].chain ==> n in r
    ensures holds[k].base in r && (holds[k].wnode.Some? ==> holds[k].wnode.value in r)
  {
    var h := holds[k];
    assert Referenced(nodes, dots, h.base);
    NeededStays(nodes, dots, r, h.base, Chain(nodes, h.base));
    assert h.base in Chain(nodes, h.base);
    assert forall n :: n in h.chain ==> n in Chain(nodes, h.base);
    if h.wnode.Some? {
      assert Referenced(nodes, dots, h.wnode.value);
    }
  }

  lemma {:induction false} CollectCore(nodes: Nodes, holds: Holds, dots: Dots, r: Nodes)
    requires Tree(nodes) && InRange(holds) && Encoded(nodes, holds) && HoldsOk(nodes, holds) && ClaimsOk(nodes, holds)
    requires Collected(nodes, dots, r)
    ensures Core(r, holds, dots)
    ensures forall n :: n in nodes && n !in r ==> nodes[n].treelock == 0
  {
    forall k | k in holds
      ensures holds[k].base in r && (forall n :: n in holds[k].chain ==> n in r)
      ensures holds[k].wnode.Some? ==> holds[k].wnode.value in r
    {
      assert HoldOk(nodes, holds[k]);
      CollectKeepsHeld(nodes, holds, dots, r, k);
    }
    forall n | n in nodes && n !in r ensures nodes[n].treelock == 0 {
      HeldWord(nodes, holds, n);
    }
    CollectFrame(nodes, holds, dots, r);
  }

  lemma {:induction false} CollectFrame(nodes: Nodes, holds: Holds, dots: Dots, r: Nodes)
    requires Tree(nodes) && InRange(holds) && Encoded(nodes, holds) && HoldsOk(nodes, holds) && ClaimsOk(nodes, holds)
    requires Collected(nodes, dots, r)
    requires forall k :: k in holds ==> holds[k].base in r
    requires forall k :: k in holds && holds[k].wnode.Some? ==> holds[k].wnode.value in r
    ensures Core(r, holds, dots)
  {
    hide RefOk, Encoded, HoldsOk, ClaimsOk, Chain, TopChain, OnlyGarbageGone;
    HoldBases(nodes, holds);
    assert Encoded(r, holds) by { SameWords(nodes, r, holds); }
    assert HoldsOk(r, holds) by { HoldsFrame(nodes, r, holds); }
    assert ClaimsOk(r, holds) by { FewerNames(nodes, r, holds); }
  }

  /** A forget that may proceed disturbs no hold. */
  lemma {:induction false} ForgetCore(nodes: Nodes, holds: Holds, dots: Dots, x: Id, k: nat)
    requires Core(nodes, holds, dots) && x in nodes && x != ROOT && 1 <= k <= nodes[x].nlookup
    requires k == nodes[x].nlookup ==> nodes[x].treelock == 0
    ensures Core(Forget(nodes, x, k), holds, dots)
    ensures SameChains(nodes, Forget(nodes, x, k)) && Survivors(LowerLookup(nodes, x, k), Forget(nodes, x, k))
    ensures OnlyGarbageGone(LowerLookup(nodes, x, k), dots, Forget(nodes, x, k))
    ensures forall n :: n in nodes && n !in Forget(nodes, x, k) ==> nodes[n].treelock == 0
  {
    hide RefOk, Encoded, HoldsOk, ClaimsOk, Chain, TopChain, OnlyGarbageGone, Forget;
    var m, r := LowerLookup(nodes, x, k), Forget(nodes, x, k);
    assert HoldsOk(m, holds) && Tree(m) && Encoded(m, holds) && ClaimsOk(m, holds) by {
      ForgetOwes(nodes, dots, x, k);
      LoweredHolds(nodes, holds, x, k);
      HoldsFrame(nodes, m, holds);
      SameWords(nodes, m, holds);
      FewerNames(nodes, m, holds);
    }
    ForgetCorrect(nodes, dots, x, k);
    assert Collected(m, dots, r) by { ForgetChains(nodes, m, r, dots, x, k); }
    CollectCore(m, holds, dots, r);
  }

  lemma {:induction false} ForgetChains(nodes: Nodes, m: Nodes, r: Nodes, dots: Dots, x: Id, k: nat)
    requires Tree(nodes) && RefOk(nodes, dots) && x in nodes && x != ROOT && 1 <= k <= nodes[x].nlookup
    requires m == LowerLookup(nodes, x, k) && r == Forget(nodes, x, k)
    ensures Collected(m, dots, r)
  {
    ForgetOwes(nodes, dots, x, k);
    ForgetCorrect(nodes, dots, x, k);
  }

  /** The bases and written nodes of holds keep a positive lookup count: the last forget waits. */
  lemma {:induction false} LoweredHolds(nodes: Nodes, holds: Holds, x: Id, k: nat)
    requires Acyclic(nodes) && HoldsOk(nodes, holds) && Encoded(nodes, holds) && InRange(holds)
    requires x in nodes && x != ROOT && k <= nodes[x].nlookup && (k == nodes[x].nlookup ==> nodes[x].treelock == 0)
    ensures var m := LowerLookup(nodes, x, k);
      && (forall j :: j in holds ==> holds[j].base in m && m[holds[j].base].nlookup > 0)
      && (forall j :: j in holds && holds[j].wnode.Some? ==>
          holds[j].wnode.value in m && m[holds[j].wnode.value].nlookup > 0)
  {
    forall j | j in holds
      ensures holds[j].base in nodes && nodes[holds[j].base].nlookup > 0
      ensures nodes[x].treelock == 0 ==> holds[j].base != x && holds[j].wnode != Some(x)
      ensures holds[j].wnode.Some? ==> holds[j].wnode.value in nodes && nodes[holds[j].wnode.value].nlookup > 0
    {
      assert HoldOk(nodes, holds[j]);
      HeldWord(nodes, holds, x);
      BaseOnChain(nodes, holds[j]);
    }
  }

  lemma {:induction false} BaseOnChain(nodes: Nodes, h: Hold)
    requires Acyclic(nodes) && HoldOk(nodes, h)
    ensures h.base != ROOT ==> h.base in h.chain
  {
    assert Chain(nodes, h.base)[0] == h.base;
    if h.base != ROOT {
      assert (h.chain + [ROOT])[0] == h.base;
      assert h.chain != [];
    }
  }
}
