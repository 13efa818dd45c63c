/** Renames, unlinks and exchanges under path locks, and the theorems over all runs. */
module LockRuns {
  import opened Prelude
  import opened NodeTree
  import opened TreeOps
  import opened TreeLocks
  import opened LockCore
  import opened LockTree
  import opened LockProtocol
  import opened LockSteps

  // ---------------------------------------------------------------- taking and giving names

  /** A waiting request across the loss of an owned node's name. */
  lemma {:induction false} DetachReq(a: Nodes, b: Nodes, x: Id, q: Request)
    requires Tree(a) && Tree(b) && ReqOk(a, q) && x in a && x != ROOT && a[x].treelock < 0 && a[x].link.Some?
    requires Relinked(a, b, x) && SameChains(Unlinked(a, x), b)
    requires forall l, y: Id :: Bound(b, l, y) <==> Bound(a, l, y) && y != x
    requires !WantsName(q, a[x].link.value)
    ensures Follows(a, b, q)
  {
    hide Chain, TopChain;
    UnlinkedTree(a, x);
    var l := Link(q.base, q.name);
    assert Target(b, q) == Target(a, q) by {
      if Target(a, q).Some? { NodeAtIs(b, l, Target(a, q).value); }
      if Target(b, q).Some? { NodeAtIs(a, l, Target(b, q).value); }
    }
    if x in Chain(a, q.base) {
      var i :| 0 <= i < |Chain(a, q.base)| && Chain(a, q.base)[i] == x;
      assert Chain(b, q.base)[i] == x;
      assert Needs(b, q, x) && b[x].treelock < 0;
    } else if Blocked(a, q) {
      var n :| n in a && Needs(a, q, n) && a[n].treelock < 0;
      assert Needs(b, q, n);
    }
  }

  /** A waiting request across the naming of an owned node. */
  lemma {:induction false} AttachReq(a: Nodes, b: Nodes, x: Id, l: Link, q: Request)
    requires Tree(a) && Tree(b) && ReqOk(a, q) && x in a && a[x].nlookup > 0
    requires Relinked(a, b, x)
    requires forall n :: n in Chain(a, q.base) ==> n in Chain(b, q.base)
    requires forall k, y: Id :: Bound(b, k, y) <==> Bound(a, k, y) || (k == l && y == x)
    requires !WantsName(q, l)
    ensures Follows(a, b, q)
  {
    hide Chain, TopChain;
    var k := Link(q.base, q.name);
    assert Target(b, q) == Target(a, q) by {
      if Target(a, q).Some? { NodeAtIs(b, k, Target(a, q).value); }
      if Target(b, q).Some? { NodeAtIs(a, k, Target(b, q).value); }
    }
    if Blocked(a, q) {
      var n :| n in a && Needs(a, q, n) && a[n].treelock < 0;
      assert Needs(b, q, n);
    }
  }

  ghost predicate OwnName(s: State, op: nat, x: Id) {
    && Owns(s.holds, op, x) && x in s.nodes && s.nodes[x].link.Some?
    && s.nodes[x].link.value.parent in s.nodes && s.nodes[s.nodes[x].link.value.parent].nlookup > 0
    && Exclusive(s, op, s.nodes[x].link.value)
  }

  /** An operation may take the name of a node it has write-locked. */
  lemma {:induction false} DetachKeeps(s: State, op: nat, x: Id)
    requires Inv(s) && OwnName(s, op, x)
    ensures Inv(s.(nodes := Detach(s.nodes, x)))
    ensures Relinked(s.nodes, Detach(s.nodes, x), x) && Detach(s.nodes, x)[x].link.None?
    ensures SameLookups(s.nodes, Detach(s.nodes, x))
    ensures forall l, y: Id :: Bound(Detach(s.nodes, x), l, y) <==> Bound(s.nodes, l, y) && y != x
  {
    hide Core, Encoded, RefOk, HoldsOk, ClaimsOk, Chain, TopChain, Follows, BlockedBelow, Detach;
    var b := Detach(s.nodes, x);
    DetachCore(s.nodes, s.holds, s.dots, op, x);
    OwnedOffChains(s.nodes, s.holds, s.dots, op, x);
    CoreCounts(s.nodes, s.holds, s.dots);
    CoreCounts(b, s.holds, s.dots);
    assert SameChains(Unlinked(s.nodes, x), b) by { DetachCorrect(s.nodes, s.dots, x); }
    forall i, q | Waiting(s.queue, i) && q in s.queue[i].reqs
      ensures Follows(s.nodes, b, q)
    {
      assert WaiterOk(s.nodes, s.holds, s.queue[i]) && ReqOk(s.nodes, q);
      DetachReq(s.nodes, b, x, q);
    }
    QueueStep(s.nodes, b, s.holds, s.queue);
  }

  /** An operation may bind a node it has write-locked below a directory whose path it holds. */
  lemma {:induction false} AttachKeeps(s: State, op: nat, x: Id, l: Link, d: nat)
    requires Inv(s) && Owns(s.holds, op, x) && x in s.nodes && s.nodes[x].link.None?
    requires d in s.holds && s.holds[d].base == l.parent && NodeAt(s.nodes, l).None? && Exclusive(s, op, l)
    ensures l.parent in s.nodes && Inv(s.(nodes := Attach(s.nodes, x, l)))
    ensures Relinked(s.nodes, Attach(s.nodes, x, l), x) && SameLookups(s.nodes, Attach(s.nodes, x, l))
    ensures forall k, y: Id :: Bound(Attach(s.nodes, x, l), k, y) <==> Bound(s.nodes, k, y) || (k == l && y == x)
  {
    hide Core, Encoded, RefOk, HoldsOk, ClaimsOk, Chain, TopChain, Follows, BlockedBelow, Attach;
    assert l.parent in s.nodes by { CoreBases(s.nodes, s.holds, s.dots); }
    var b := Attach(s.nodes, x, l);
    AttachCore(s.nodes, s.holds, s.dots, op, x, l, d);
    OwnedOffChains(s.nodes, s.holds, s.dots, op, x);
    CoreCounts(s.nodes, s.holds, s.dots);
    CoreCounts(b, s.holds, s.dots);
    AttachCorrect(s.nodes, s.dots, x, l);
    forall i, q | Waiting(s.queue, i) && q in s.queue[i].reqs
      ensures Follows(s.nodes, b, q)
    {
      assert WaiterOk(s.nodes, s.holds, s.queue[i]) && ReqOk(s.nodes, q);
      AttachReq(s.nodes, b, x, l, q);
    }
    QueueStep(s.nodes, b, s.holds, s.queue);
  }

  lemma {:induction false} CoreBases(nodes: Nodes, holds: Holds, dots: Dots)
    requires Core(nodes, holds, dots)
    ensures forall k :: k in holds ==> holds[k].base in nodes && nodes[holds[k].base].nlookup > 0
    ensures forall k :: k in holds && holds[k].claim.Some? ==> holds[k].claim.value.parent == holds[k].base
  {
    HoldBases(nodes, holds);
    forall k | k in holds && holds[k].claim.Some? ensures holds[k].claim.value.parent == holds[k].base {
      assert HoldOk(nodes, holds[k]);
    }
  }

  /** What is bound at a claimed name is owned, under a directory whose path is held. */
  lemma {:induction false} ClaimedIsOwn(s: State, op: nat, l: Link)
    requires Inv(s) && Claims(s.holds, op, l) && Exclusive(s, op, l)
    ensures exists d :: d in s.holds && s.holds[d].base == l.parent
    ensures NodeAt(s.nodes, l).Some? ==> OwnName(s, op, NodeAt(s.nodes, l).value)
  {
    hide Encoded, RefOk, HoldsOk, Tree;
    var k :| k in s.holds && k / 2 == op && s.holds[k].claim == Some(l);
    CoreBases(s.nodes, s.holds, s.dots);
    assert ClaimOk(s.nodes, s.holds, k);
    assert s.holds[k].base == l.parent;
  }

  // ---------------------------------------------------------------- unlink

  lemma {:induction false} RemoveKeeps(s: State, op: nat, l: Link)
    requires Inv(s) && MayRemove(s, op, l) && Exclusive(s, op, l)
    ensures Inv(s.(nodes := DetachAt(s.nodes, NodeAt(s.nodes, l))))
    ensures SameLookups(s.nodes, DetachAt(s.nodes, NodeAt(s.nodes, l)))
    ensures forall k, y: Id :: Bound(DetachAt(s.nodes, NodeAt(s.nodes, l)), k, y) <==>
              Bound(s.nodes, k, y) && Some(y) != NodeAt(s.nodes, l)
  {
    hide Core, QueueOk, BlockedBelow, Exclusive, Detach;
    if NodeAt(s.nodes, l).Some? {
      var x := NodeAt(s.nodes, l).value;
      if Claims(s.holds, op, l) {
        ClaimedIsOwn(s, op, l);
      } else {
        var k :| k in s.holds && k / 2 == op && s.holds[k].wnode.Some? && s.holds[k].base == l.parent
                 && Bound(s.nodes, l, s.holds[k].wnode.value);
        CoreTree(s.nodes, s.holds, s.dots);
        NodeAtIs(s.nodes, l, s.holds[k].wnode.value);
        CoreBases(s.nodes, s.holds, s.dots);
      }
      DetachKeeps(s, op, x);
    }
  }

  // ---------------------------------------------------------------- rename

  lemma {:induction false} OwnNameOwns(s: State, op: nat, x: Id)
    requires OwnName(s, op, x)
    ensures Owns(s.holds, op, x) && x in s.nodes
  {
  }

  /** Taking the name at `l`, if one is bound there. */
  lemma {:induction false} DetachAtKeeps(s: State, op: nat, l: Link, at: Option<Id>)
    requires Inv(s) && Claims(s.holds, op, l) && Exclusive(s, op, l) && at == NodeAt(s.nodes, l)
    ensures var b := DetachAt(s.nodes, at);
      && Inv(s.(nodes := b)) && b.Keys == s.nodes.Keys && SameLookups(s.nodes, b)
      && (forall k, y: Id :: Bound(b, k, y) <==> Bound(s.nodes, k, y) && Some(y) != at)
      && (at.Some? ==> at.value in b && b[at.value].link.None? && Owns(s.holds, op, at.value))
  {
    hide Inv, Exclusive, Detach, OwnName, NodeAt, Claims;
    if at.Some? {
      ClaimedIsOwn(s, op, l);
      OwnNameOwns(s, op, at.value);
      DetachKeeps(s, op, at.value);
    }
  }

  /** What a rename does to the names: the node at `from` gets the name `to` instead of its own, and the node
      that had it is left without; nothing else changes. */
  ghost predicate Renamed(a: Nodes, b: Nodes, from: Link, to: Link, hiding: bool, copied: bool) {
    var x, over := NodeAt(a, from), NodeAt(a, to);
    if x.None? || (over.Some? && hiding) then b == a
    else forall k, y: Id :: Bound(b, k, y) <==>
           (Bound(a, k, y) && Some(y) != x && Some(y) != over) || (copied && k == to && x == Some(y))
  }

  lemma {:induction false} RenameKeeps(s: State, op: nat, from: Link, to: Link, hiding: bool, copied: bool)
    requires Inv(s) && Enabled(s, Rename(op, from, to, hiding, copied))
    ensures Inv(s.(nodes := RenameNodes(s.nodes, from, to, hiding, copied)))
    ensures SameLookups(s.nodes, RenameNodes(s.nodes, from, to, hiding, copied))
    ensures Renamed(s.nodes, RenameNodes(s.nodes, from, to, hiding, copied), from, to, hiding, copied)
  {
    hide Core, QueueOk, BlockedBelow, Detach, Attach, Bound, NodeAt;
    var at, over := NodeAt(s.nodes, from), NodeAt(s.nodes, to);
    if at.Some? && !(over.Some? && hiding) {
      var s1 := s.(nodes := DetachAt(s.nodes, over));
      RenameClears(s, op, from, to, hiding, at.value);
      assert Exclusive(s1, op, to);
      RenameMoves(s1, op, from, to, at.value, copied);
      assert at.value in s1.nodes;
    }
  }

  /** The first half of a rename: the target's old node loses its name, the moved node is owned. */
  lemma {:induction false} RenameClears(s: State, op: nat, from: Link, to: Link, hiding: bool, x: Id)
    requires Inv(s) && Claims(s.holds, op, from) && Exclusive(s, op, from) && Exclusive(s, op, to)
    requires NodeAt(s.nodes, from) == Some(x)
    requires Claims(s.holds, op, to) || (hiding && to.parent == from.parent && NodeAt(s.nodes, to).None?)
    ensures var s1 := s.(nodes := DetachAt(s.nodes, NodeAt(s.nodes, to)));
      && Inv(s1) && x in s1.nodes && Owns(s1.holds, op, x) && NodeAt(s1.nodes, to).None?
      && (s1.nodes[x].link.Some? ==> OwnName(s1, op, x))
      && (exists d :: d in s1.holds && s1.holds[d].base == to.parent) && SameLookups(s.nodes, s1.nodes)
      && (forall k, y: Id :: Bound(s1.nodes, k, y) <==> Bound(s.nodes, k, y) && Some(y) != NodeAt(s.nodes, to))
  {
    hide Core, QueueOk, BlockedBelow, Detach;
    ClaimedIsOwn(s, op, from);
    var over := NodeAt(s.nodes, to);
    var b := DetachAt(s.nodes, over);
    if over.Some? {
      ClaimedIsOwn(s, op, to);
      DetachKeeps(s, op, over.value);
      InvNames(s);
      NoneLeft(s.nodes, b, to, over);
    } else if Claims(s.holds, op, to) {
      ClaimedIsOwn(s, op, to);
    }
  }

  lemma {:induction false} InvNames(s: State)
    requires Inv(s)
    ensures UniqueNames(s.nodes)
  {
  }

  lemma {:induction false} NoneLeft(a: Nodes, b: Nodes, l: Link, at: Option<Id>)
    requires UniqueNames(a) && at == NodeAt(a, l)
    requires forall k, y: Id :: Bound(b, k, y) <==> Bound(a, k, y) && Some(y) != at
    ensures NodeAt(b, l).None?
  {
    if NodeAt(b, l).Some? {
      NodeAtIs(a, l, NodeAt(b, l).value);
    }
  }

  /** The second half: the owned node loses its old name and gets the new one. */
  lemma {:induction false} RenameMoves(s: State, op: nat, from: Link, to: Link, x: Id, copied: bool)
    requires Inv(s) && x in s.nodes && Owns(s.holds, op, x) && NodeAt(s.nodes, to).None? && Exclusive(s, op, to)
    requires s.nodes[x].link.Some? ==> OwnName(s, op, x)
    requires exists d :: d in s.holds && s.holds[d].base == to.parent
    ensures var n2 := Detach(s.nodes, x);
      && x in n2 && to.parent in n2
      && Inv(s.(nodes := n2)) && Inv(s.(nodes := Attach(n2, x, to)))
      && SameLookups(s.nodes, n2) && SameLookups(s.nodes, Attach(n2, x, to))
      && (forall k, y: Id :: Bound(n2, k, y) <==> Bound(s.nodes, k, y) && y != x)
      && (forall k, y: Id :: Bound(Attach(n2, x, to), k, y) <==> Bound(n2, k, y) || (k == to && y == x))
  {
    hide Core, QueueOk, BlockedBelow;
    var d :| d in s.holds && s.holds[d].base == to.parent;
    var n2 := Detach(s.nodes, x);
    if s.nodes[x].link.Some? {
      DetachKeeps(s, op, x);
    }
    var s2 := s.(nodes := n2);
    assert Exclusive(s2, op, to);
    assert NodeAt(n2, to).None?;
    AttachKeeps(s2, op, x, to, d);
  }

  // ---------------------------------------------------------------- exchange

  /** What an exchange does to the names: each of the two nodes gets the other's, as far as the copies of the
      names succeed; nothing else changes. */
  ghost predicate Exchanged(a: Nodes, b: Nodes, from: Link, to: Link, copied: bool, copied2: bool) {
    var x, y := NodeAt(a, from), NodeAt(a, to);
    forall k, n: Id :: Bound(b, k, n) <==>
      || (Bound(a, k, n) && Some(n) != x && Some(n) != y)
      || (x == Some(n) && k == to && copied)
      || (y == Some(n) && k == from && copied2 && (x.None? || copied))
  }

  lemma {:induction false} ExchangeKeeps(s: State, op: nat, from: Link, to: Link, copied: bool, copied2: bool)
    requires Inv(s) && Enabled(s, Exchange(op, from, to, copied, copied2))
    ensures Inv(s.(nodes := ExchangeNodes(s.nodes, from, to, copied, copied2)))
    ensures SameLookups(s.nodes, ExchangeNodes(s.nodes, from, to, copied, copied2))
    ensures Exchanged(s.nodes, ExchangeNodes(s.nodes, from, to, copied, copied2), from, to, copied, copied2)
  {
    hide Inv, Detach, Attach, NodeAt, Owns, Claims, Exclusive, AttachAt, DetachAt, Bound, Exchanged;
    var a, b := NodeAt(s.nodes, from), NodeAt(s.nodes, to);
    var s1 := s.(nodes := DetachAt(s.nodes, a));
    DetachAtKeeps(s, op, from, a);
    InvNames(s);
    InvNames(s1);
    OtherName(s.nodes, s1.nodes, from, to, a);
    ExclusiveKept(s, s1.nodes, op, to);
    var s2 := s1.(nodes := DetachAt(s1.nodes, b));
    DetachAtKeeps(s1, op, to, b);
    assert NodeAt(s2.nodes, from).None? && NodeAt(s2.nodes, to).None? && (a.Some? ==> s2.nodes[a.value].link.None?) by {
      ExchangeCleared(s.nodes, s1.nodes, s2.nodes, from, to, a, b);
    }
    ExclusiveKept(s, s2.nodes, op, to);
    var s3 := s2.(nodes := AttachAt(s2.nodes, a, to));
    AttachAtKeeps(s2, op, to, a);
    ExclusiveKept(s, s3.nodes, op, from);
    if !(a.Some? && !copied) {
      ExchangeSecond(s2.nodes, s3.nodes, from, to, a);
      AttachAtKeeps(s3, op, from, b);
    }
    var r := ExchangeNodes(s.nodes, from, to, copied, copied2);
    hide ExchangeNodes;
    ExchangedNames(s.nodes, s1.nodes, s2.nodes, s3.nodes, r, from, to, copied, copied2);
  }

  lemma {:induction false} ExchangedNames(
    n: Nodes, n1: Nodes, n2: Nodes, n3: Nodes, r: Nodes, from: Link, to: Link, copied: bool, copied2: bool)
    requires forall k, m: Id :: Bound(n1, k, m) <==> Bound(n, k, m) && Some(m) != NodeAt(n, from)
    requires forall k, m: Id :: Bound(n2, k, m) <==> Bound(n1, k, m) && Some(m) != NodeAt(n, to)
    requires forall k, m: Id :: Bound(n3, k, m) <==> Bound(n2, k, m) || (NodeAt(n, from) == Some(m) && k == to)
    requires
      if NodeAt(n, from).Some? && !copied then r == n2
      else if NodeAt(n, to).Some? && !copied2 then r == n3
      else forall k, m: Id :: Bound(r, k, m) <==> Bound(n3, k, m) || (NodeAt(n, to) == Some(m) && k == from)
    ensures Exchanged(n, r, from, to, copied, copied2)
  {
    hide NodeAt, Bound;
  }

  lemma {:induction false} ExclusiveKept(s: State, nodes: Nodes, op: nat, l: Link)
    requires Exclusive(s, op, l)
    ensures Exclusive(s.(nodes := nodes), op, l)
  {
  }

  /** The other name of an exchange is bound as before. */
  lemma {:induction false} OtherName(a: Nodes, b: Nodes, from: Link, to: Link, at: Option<Id>)
    requires UniqueNames(a) && UniqueNames(b) && from != to && at == NodeAt(a, from)
    requires forall k, y: Id :: Bound(b, k, y) <==> Bound(a, k, y) && Some(y) != at
    ensures NodeAt(b, to) == NodeAt(a, to)
  {
    if NodeAt(a, to).Some? { NodeAtIs(b, to, NodeAt(a, to).value); }
    if NodeAt(b, to).Some? { NodeAtIs(a, to, NodeAt(b, to).value); }
  }

  lemma {:induction false} ExchangeCleared(
      n: Nodes, n1: Nodes, n2: Nodes, from: Link, to: Link, a: Option<Id>, b: Option<Id>)
    requires UniqueNames(n) && UniqueNames(n1)
    requires a == NodeAt(n, from) && b == NodeAt(n1, to) && n1.Keys == n2.Keys
    requires a.Some? ==> a.value in n1 && n1[a.value].link.None?
    requires forall k, y: Id :: Bound(n1, k, y) <==> Bound(n, k, y) && Some(y) != a
    requires forall k, y: Id :: Bound(n2, k, y) <==> Bound(n1, k, y) && Some(y) != b
    ensures NodeAt(n2, from).None? && NodeAt(n2, to).None? && (a.Some? ==> n2[a.value].link.None?)
  {
    if NodeAt(n2, from).Some? { NodeAtIs(n, from, NodeAt(n2, from).value); }
    if NodeAt(n2, to).Some? { NodeAtIs(n1, to, NodeAt(n2, to).value); }
    if a.Some? && n2[a.value].link.Some? {
      assert Bound(n2, n2[a.value].link.value, a.value);
    }
  }

  /** Giving an owned node a name that its operation claimed. */
  lemma {:induction false} AttachAtKeeps(s: State, op: nat, l: Link, at: Option<Id>)
    requires Inv(s) && Claims(s.holds, op, l) && Exclusive(s, op, l) && NodeAt(s.nodes, l).None?
    requires at.Some? ==> at.value in s.nodes && s.nodes[at.value].link.None? && Owns(s.holds, op, at.value)
    ensures var b := AttachAt(s.nodes, at, l);
      && Inv(s.(nodes := b)) && b.Keys == s.nodes.Keys && SameLookups(s.nodes, b)
      && (forall k, y: Id :: Bound(b, k, y) <==> Bound(s.nodes, k, y) || (at == Some(y) && k == l))
      && (forall n :: n in b && Some(n) != at ==> b[n].link == s.nodes[n].link)
  {
    hide Inv, Exclusive, Attach, NodeAt, Claims, OwnName;
    if at.Some? {
      ClaimedIsOwn(s, op, l);
      var d :| d in s.holds && s.holds[d].base == l.parent;
      AttachKeeps(s, op, at.value, l, d);
    }
  }

  lemma {:induction false} ExchangeSecond(n2: Nodes, n3: Nodes, from: Link, to: Link, a: Option<Id>)
    requires from != to && NodeAt(n2, from).None?
    requires forall k, y: Id :: Bound(n3, k, y) <==> Bound(n2, k, y) || (a == Some(y) && k == to)
    ensures NodeAt(n3, from).None?
  {
    forall y ensures !Bound(n3, from, y) {
      assert !Bound(n2, from, y);
    }
  }
}
