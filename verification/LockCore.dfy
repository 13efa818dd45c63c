/** What every critical section under `f->lock` keeps about the tree and the path locks together. */
module LockCore {
  import opened Prelude
  import opened NodeTree
  import opened TreeLocks

  /** A hold is good: its chain is still the base's chain to the root, so a release walks the very
      nodes that were locked; its base and its written node have been looked up. */
  ghost predicate HoldOk(nodes: Nodes, h: Hold)
    requires Acyclic(nodes)
  {
    && h.base in nodes && nodes[h.base].nlookup > 0
    && Chain(nodes, h.base) == h.chain + [ROOT]
    && (h.claim.Some? ==> h.claim.value.parent == h.base)
    && (h.wnode.Some? ==> h.wnode.value in nodes && h.wnode.value != ROOT && nodes[h.wnode.value].nlookup > 0)
  }

  /** Operation `op` holds the write lock of `x`. */
  ghost predicate Owns(holds: Holds, op: nat, x: Id) {
    exists k :: k in holds && k / 2 == op && holds[k].wnode == Some(x)
  }

  /** Whatever is bound at a name that an unlink or rename works on is write-locked by it. */
  ghost predicate ClaimOk(nodes: Nodes, holds: Holds, k: nat)
    requires k in holds
  {
    holds[k].claim.Some? && NodeAt(nodes, holds[k].claim.value).Some? ==>
      Owns(holds, k / 2, NodeAt(nodes, holds[k].claim.value).value)
  }

  ghost predicate HoldsOk(nodes: Nodes, holds: Holds)
    requires Acyclic(nodes)
  {
    forall k :: k in holds ==> HoldOk(nodes, holds[k])
  }

  ghost predicate ClaimsOk(nodes: Nodes, holds: Holds) {
    forall k :: k in holds ==> ClaimOk(nodes, holds, k)
  }

  ghost predicate Core(nodes: Nodes, holds: Holds, dots: Dots) {
    && Tree(nodes) && RefOk(nodes, dots)
    && InRange(holds) && Encoded(nodes, holds)
    && HoldsOk(nodes, holds) && ClaimsOk(nodes, holds)
  }

  /** What was written, or marked by a waiting writer, still is. */
  ghost predicate StaysHeld(a: Nodes, b: Nodes) {
    forall n :: n in a && n in b && a[n].treelock < 0 ==> b[n].treelock < 0
  }

  // ---------------------------------------------------------------- changes of lock words only

  lemma {:induction false} KeepsTrans(a: Nodes, b: Nodes, c: Nodes)
    requires KeepsLinks(a, b) && KeepsLinks(b, c)
    ensures KeepsLinks(a, c)
    ensures StaysHeld(a, b) && StaysHeld(b, c) ==> StaysHeld(a, c)
  {
  }

  lemma {:induction false} KeepsCounts(a: Nodes, b: Nodes, dots: Dots)
    requires KeepsLinks(a, b) && RefOk(a, dots)
    ensures RefOk(b, dots)
  {
    forall n | n in b ensures Counted(b, dots, n, 0) {
      assert Counted(a, dots, n, 0);
      SameRefs(a, b, dots, n);
    }
  }

  lemma {:induction false} KeepsHolds(a: Nodes, b: Nodes, holds: Holds)
    requires Tree(a) && KeepsLinks(a, b) && HoldsOk(a, holds) && ClaimsOk(a, holds)
    ensures Tree(b) && HoldsOk(b, holds) && ClaimsOk(b, holds)
  {
    KeepsTree(a, b);
    forall k | k in holds ensures HoldOk(b, holds[k]) && ClaimOk(b, holds, k) {
      assert HoldOk(a, holds[k]) && ClaimOk(a, holds, k);
    }
  }

  /** A request the kernel may make: its base has been looked up, and so has what is bound at the
      name it is to unlink or rename. */
  ghost predicate ReqOk(nodes: Nodes, q: Request) {
    && q.base in nodes && nodes[q.base].nlookup > 0
    && (Target(nodes, q).Some? ==> nodes[Target(nodes, q).value].nlookup > 0)
  }

  function HoldOf(q: Request, chain: seq<Id>, wnode: Option<Id>): Hold {
    Hold(q.base, chain, wnode, if q.write then Some(Link(q.base, q.name)) else None)
  }

  lemma {:induction false} ReqKept(a: Nodes, b: Nodes, q: Request)
    requires Tree(a) && KeepsLinks(a, b) && ReqOk(a, q)
    ensures ReqOk(b, q)
  {
    KeepsTree(a, b);
  }

  /** The lock part of a grant. */
  lemma {:induction false} GrantLocks(nodes: Nodes, holds: Holds, k: nat, q: Request, oom: Option<nat>)
    requires Tree(nodes) && Encoded(nodes, holds) && InRange(holds) && k !in holds && q.base in nodes
    requires TryGet(nodes, q, oom).1.Granted?
    ensures var (r, o) := TryGet(nodes, q, oom);
      Encoded(r, holds[k := HoldOf(q, o.chain, o.wnode)]) && KeepsLinks(nodes, r) && StaysHeld(nodes, r)
  {
    var (r, o) := TryGet(nodes, q, oom);
    TryGetGranted(nodes, q, oom);
    GrantEncodes(nodes, holds, k, HoldOf(q, o.chain, o.wnode));
  }

  /** A granted path is a good hold. */
  lemma {:induction false} GrantHold(nodes: Nodes, q: Request, oom: Option<nat>)
    requires Tree(nodes) && ReqOk(nodes, q) && TryGet(nodes, q, oom).1.Granted?
    ensures var (r, o) := TryGet(nodes, q, oom);
      Tree(r) && HoldOk(r, HoldOf(q, o.chain, o.wnode))
  {
    var (r, o) := TryGet(nodes, q, oom);
    TryGetGranted(nodes, q, oom);
    TryGetKeeps(nodes, q, oom);
    KeepsTree(nodes, r);
  }

  /** Adding a granted hold keeps all of `Core`. */
  lemma {:induction false} GrantCore(nodes: Nodes, holds: Holds, dots: Dots, k: nat, q: Request, oom: Option<nat>)
    requires Core(nodes, holds, dots) && k !in holds && k < 2 * MAX_OPS && ReqOk(nodes, q)
    requires TryGet(nodes, q, oom).1.Granted?
    ensures var (r, o) := TryGet(nodes, q, oom);
      Core(r, holds[k := HoldOf(q, o.chain, o.wnode)], dots) && KeepsLinks(nodes, r) && StaysHeld(nodes, r)
  {
    hide Tree, RefOk, Encoded, HoldsOk, ClaimsOk, KeepsLinks, StaysHeld;
    hide TryGet, Target, NodeAt;
    var (r, o) := TryGet(nodes, q, oom);
    var h := HoldOf(q, o.chain, o.wnode);
    var hs := holds[k := h];
    assert Encoded(r, hs) && KeepsLinks(nodes, r) && StaysHeld(nodes, r) by { GrantLocks(nodes, holds, k, q, oom); }
    assert RefOk(r, dots) by { KeepsCounts(nodes, r, dots); }
    assert Tree(r) && HoldsOk(r, hs) by {
      KeepsHolds(nodes, r, holds);
      GrantHold(nodes, q, oom);
      HoldsGrow(r, holds, k, h);
    }
    assert ClaimsOk(r, hs) by {
      KeepsHolds(nodes, r, holds);
      TryGetGranted(nodes, q, oom);
      KeepsTree(nodes, r);
      assert q.write ==> NodeAt(nodes, Link(q.base, q.name)) == o.wnode by { WriteTarget(nodes, q); }
      ClaimsGrow(r, holds, k, h);
    }
  }

  lemma {:induction false} WriteTarget(nodes: Nodes, q: Request)
    ensures q.write ==> NodeAt(nodes, Link(q.base, q.name)) == Target(nodes, q)
  {
  }

  lemma {:induction false} HoldsGrow(nodes: Nodes, holds: Holds, k: nat, h: Hold)
    requires Acyclic(nodes) && HoldsOk(nodes, holds) && HoldOk(nodes, h)
    ensures HoldsOk(nodes, holds[k := h])
  {
  }

  /** One more hold keeps the claims of the others, and its own if what is bound there is its own
      written node. */
  lemma {:induction false} ClaimsGrow(nodes: Nodes, holds: Holds, k: nat, h: Hold)
    requires ClaimsOk(nodes, holds) && k !in holds
    requires h.claim.Some? ==> NodeAt(nodes, h.claim.value) == h.wnode
    ensures ClaimsOk(nodes, holds[k := h])
  {
    var hs := holds[k := h];
    forall j | j in hs ensures ClaimOk(nodes, hs, j) {
      if j == k {
        assert h.wnode.Some? ==> Owns(hs, k / 2, h.wnode.value) by { assert hs[k] == h; }
      } else {
        assert ClaimOk(nodes, holds, j);
        if holds[j].claim.Some? && NodeAt(nodes, holds[j].claim.value).Some? {
          var i :| i in holds && i / 2 == j / 2 && holds[i].wnode == NodeAt(nodes, holds[j].claim.value);
          assert hs[i] == holds[i];
        }
      }
    }
  }

  /** Marks keep all of `Core`. */
  lemma {:induction false} MarksCore(a: Nodes, b: Nodes, holds: Holds, dots: Dots)
    requires Core(a, holds, dots) && OnlyMarks(a, b)
    ensures Core(b, holds, dots) && KeepsLinks(a, b) && StaysHeld(a, b)
  {
    assert KeepsLinks(a, b);
    MarksEncode(a, b, holds);
    KeepsCounts(a, b, dots);
    KeepsHolds(a, b, holds);
    forall n | n in a && n in b && a[n].treelock < 0 ensures b[n].treelock < 0 {
      assert EncodedAt(a, holds, n);
      FewReaders(holds, n);
    }
  }

  // ---------------------------------------------------------------- attempts

  /** The holds after an attempt. */
  function AddHolds(holds: Holds, op: nat, qs: seq<Request>, gs: seq<Grant>): Holds
    requires 1 <= |gs| <= 2 && |qs| == |gs|
  {
    var one := holds[2 * op := HoldOf(qs[0], gs[0].chain, gs[0].wnode)];
    if |gs| == 1 then one else one[2 * op + 1 := HoldOf(qs[1], gs[1].chain, gs[1].wnode)]
  }

  datatype Attempt = Attempt(nodes: Nodes, holds: Holds, result: Result)

  ghost predicate ReqsOk(nodes: Nodes, qs: seq<Request>) {
    1 <= |qs| <= 2 && forall q :: q in qs ==> ReqOk(nodes, q)
  }

  ghost predicate FreeOp(holds: Holds, op: nat) {
    op < MAX_OPS && 2 * op !in holds && 2 * op + 1 !in holds
  }

  /** One try of an operation to lock its path or its two paths. */
  ghost function Try(
      nodes: Nodes, holds: Holds, op: nat, qs: seq<Request>, oom: Option<nat>, oom2: Option<nat>): (a: Attempt)
    requires Tree(nodes) && ReqsOk(nodes, qs)
  {
    var (r, res) := TryAll(nodes, qs, oom, oom2);
    Attempt(r, if res.Held? then AddHolds(holds, op, qs, res.grants) else holds, res)
  }

  /** A try keeps `Core`, keeps links, and frees no node that was held. */
  lemma {:induction false} TryCore(
      nodes: Nodes, holds: Holds, dots: Dots, op: nat, qs: seq<Request>, oom: Option<nat>, oom2: Option<nat>)
    requires Core(nodes, holds, dots) && ReqsOk(nodes, qs) && FreeOp(holds, op)
    ensures var a := Try(nodes, holds, op, qs, oom, oom2);
      && Core(a.nodes, a.holds, dots) && KeepsLinks(nodes, a.nodes) && StaysHeld(nodes, a.nodes)
  {
    if TryAll(nodes, qs, oom, oom2).1.Failed? {
      AllOrNothing(nodes, qs, oom, oom2);
      MarksCore(nodes, TryAll(nodes, qs, oom, oom2).0, holds, dots);
    } else if |qs| == 1 {
      GrantCore(nodes, holds, dots, 2 * op, qs[0], oom);
    } else {
      TryTwoCore(nodes, holds, dots, op, qs, oom, oom2);
    }
  }

  lemma {:induction false} TryTwoCore(
      nodes: Nodes, holds: Holds, dots: Dots, op: nat, qs: seq<Request>, oom: Option<nat>, oom2: Option<nat>)
    requires Core(nodes, holds, dots) && ReqsOk(nodes, qs) && FreeOp(holds, op) && |qs| == 2
    requires TryAll(nodes, qs, oom, oom2).1.Held?
    ensures var a := Try(nodes, holds, op, qs, oom, oom2);
      && Core(a.nodes, a.holds, dots) && KeepsLinks(nodes, a.nodes) && StaysHeld(nodes, a.nodes)
  {
    hide Tree, RefOk, Encoded, HoldsOk, ClaimsOk, KeepsLinks, StaysHeld;
    var (n1, o1) := TryGet(nodes, qs[0], oom);
    var h1 := holds[2 * op := HoldOf(qs[0], o1.chain, o1.wnode)];
    assert Core(n1, h1, dots) && KeepsLinks(nodes, n1) && StaysHeld(nodes, n1) by {
      GrantCore(nodes, holds, dots, 2 * op, qs[0], oom);
    }
    assert ReqOk(n1, qs[1]) by { ReqKept(nodes, n1, qs[1]); }
    GrantCore(n1, h1, dots, 2 * op + 1, qs[1], oom2);
    KeepsTrans(nodes, n1, TryGet(n1, qs[1], oom2).0);
  }

  /** The nodes a request has to lock. */
  ghost predicate Needs(nodes: Nodes, q: Request, n: Id)
    requires Acyclic(nodes)
  {
    q.base in nodes && ((n in Chain(nodes, q.base) && n != ROOT) || Target(nodes, q) == Some(n))
  }

  /** Some node the request has to lock is written or awaited by a writer, so that nobody else gets it. */
  ghost predicate Blocked(nodes: Nodes, q: Request)
    requires Acyclic(nodes)
  {
    exists n :: n in nodes && Needs(nodes, q, n) && nodes[n].treelock < 0
  }

  /** Two paths are in each other's way: the node one is to write is a node the other has to lock. */
  ghost predicate Crossed(nodes: Nodes, p: Request, q: Request)
    requires Acyclic(nodes)
  {
    || (Target(nodes, p).Some? && Needs(nodes, q, Target(nodes, p).value))
    || (Target(nodes, q).Some? && Needs(nodes, p, Target(nodes, q).value))
  }

  /** What holds up one path, or two. */
  ghost predicate Hindered(nodes: Nodes, qs: seq<Request>)
    requires Acyclic(nodes)
  {
    |qs| >= 1 && (Blocked(nodes, qs[0]) || (|qs| == 2 && (Blocked(nodes, qs[1]) || Crossed(nodes, qs[0], qs[1]))))
  }

  /** The request needs every node it needed, and is to write the node it was to write. */
  ghost predicate NeedsStill(a: Nodes, b: Nodes, q: Request)
    requires Acyclic(a) && Acyclic(b)
  {
    (forall n :: Needs(a, q, n) ==> Needs(b, q, n)) && (Target(a, q).Some? ==> Target(b, q) == Target(a, q))
  }

  /** What a step leaves of a waiting request: it stays good and blocked, and unless it is blocked it still needs
      every node it needed and is to write the node it was to write. */
  ghost predicate Follows(a: Nodes, b: Nodes, q: Request)
    requires Acyclic(a) && Acyclic(b)
  {
    && ReqOk(b, q) && (Blocked(a, q) ==> Blocked(b, q))
    && (Blocked(b, q) || NeedsStill(a, b, q))
  }

  lemma {:induction false} HinderedFollows(a: Nodes, b: Nodes, qs: seq<Request>)
    requires Acyclic(a) && Acyclic(b) && Hindered(a, qs) && forall q :: q in qs ==> Follows(a, b, q)
    ensures Hindered(b, qs)
  {
    hide Needs, Blocked, Target, ReqOk;
    assert qs[0] in qs && (|qs| == 2 ==> qs[1] in qs);
  }

  /** Lock words alone change nothing about what a request needs. */
  lemma {:induction false} FollowsLocks(a: Nodes, b: Nodes, q: Request)
    requires Tree(a) && KeepsLinks(a, b) && StaysHeld(a, b) && ReqOk(a, q)
    ensures Tree(b) && Follows(a, b, q)
  {
    hide Chain, TopChain, NodeAt;
    KeepsTree(a, b);
    if Blocked(a, q) {
      var n :| n in a && Needs(a, q, n) && a[n].treelock < 0;
      assert Needs(b, q, n);
    }
  }

  lemma {:induction false} HinderedKept(a: Nodes, b: Nodes, qs: seq<Request>)
    requires Tree(a) && KeepsLinks(a, b) && StaysHeld(a, b) && ReqsOk(a, qs) && Hindered(a, qs)
    ensures Tree(b) && Hindered(b, qs)
  {
    hide Follows, Hindered, KeepsLinks, StaysHeld, ReqOk;
    FollowsLocks(a, b, qs[0]);
    forall q | q in qs ensures Follows(a, b, q) {
      FollowsLocks(a, b, q);
    }
    HinderedFollows(a, b, qs);
  }

  ghost predicate WordsUpTo(nodes: Nodes, max: int) {
    forall n :: n in nodes ==> nodes[n].treelock <= max
  }

  /** There is room for one more reader. */
  lemma {:induction false} EncodedSmall(nodes: Nodes, holds: Holds)
    requires Encoded(nodes, holds) && InRange(holds)
    ensures WordsUpTo(nodes, INT_MAX - 1)
  {
    forall n | n in nodes ensures nodes[n].treelock <= INT_MAX - 1 {
      assert EncodedAt(nodes, holds, n);
      FewReaders(holds, n);
    }
  }

  /** Why a path has to wait: at a node that is not free for it, which the attempt leaves with a negative word. */
  lemma {:induction false} AgainAt(nodes: Nodes, q: Request, oom: Option<nat>) returns (n: Id)
    requires Tree(nodes) && WordsUpTo(nodes, INT_MAX) && ReqOk(nodes, q) && TryGet(nodes, q, oom).1 == Again
    ensures n in nodes && n in TryGet(nodes, q, oom).0 && Needs(nodes, q, n) && TryGet(nodes, q, oom).0[n].treelock < 0
    ensures nodes[n].treelock < 0 || (Target(nodes, q) == Some(n) && nodes[n].treelock > 0)
  {
    var w := Target(nodes, q);
    if w.Some? && nodes[w.value].treelock != 0 {
      n := w.value;
    } else {
      var c := Chain(nodes, q.base);
      ChainEnds(nodes, q.base, c);
      WalkOutcome(nodes, q.base, c, 0, oom);
      n := c[Walk(nodes, c, 0, oom).0];
    }
  }

  /** An attempt that has to wait is hindered. */
  lemma {:induction false} AgainHindered(nodes: Nodes, qs: seq<Request>, oom: Option<nat>, oom2: Option<nat>)
    requires Tree(nodes) && WordsUpTo(nodes, INT_MAX - 1) && ReqsOk(nodes, qs)
    requires TryAll(nodes, qs, oom, oom2).1 == Failed(Again)
    ensures Tree(TryAll(nodes, qs, oom, oom2).0) && Hindered(TryAll(nodes, qs, oom, oom2).0, qs)
  {
    hide Chain, TopChain, NodeAt, Needs;
    assert qs[0] in qs;
    var (n1, o1) := TryGet(nodes, qs[0], oom);
    if o1.Granted? {
      assert qs == [qs[0], qs[1]] && qs[1] in qs;
      SecondAgain(nodes, qs[0], qs[1], oom, oom2);
    } else {
      var n := AgainAt(nodes, qs[0], oom);
      TryGetKeeps(nodes, qs[0], oom);
      SameNeeds(nodes, n1, qs[0]);
    }
  }

  lemma {:induction false} SameNeeds(a: Nodes, b: Nodes, q: Request)
    requires Tree(a) && KeepsLinks(a, b)
    ensures Tree(b) && Target(a, q) == Target(b, q)
    ensures forall n :: Needs(a, q, n) <==> Needs(b, q, n)
  {
    hide Chain, TopChain;
    KeepsTree(a, b);
  }

  /** The second path has to wait: for somebody else, or for the first path, which is given back. */
  lemma {:induction false} SecondAgain(nodes: Nodes, p: Request, q: Request, oom: Option<nat>, oom2: Option<nat>)
    requires Tree(nodes) && WordsUpTo(nodes, INT_MAX - 1) && ReqOk(nodes, p) && ReqOk(nodes, q)
    requires TryGet(nodes, p, oom).1.Granted? && TryAll(nodes, [p, q], oom, oom2).1 == Failed(Again)
    ensures Tree(TryAll(nodes, [p, q], oom, oom2).0) && Hindered(TryAll(nodes, [p, q], oom, oom2).0, [p, q])
  {
    hide TryGet, Chain, TopChain, NodeAt, Target;
    var (n1, o1) := TryGet(nodes, p, oom);
    TryGetGranted(nodes, p, oom);
    TryGetKeeps(nodes, p, oom);
    SameNeeds(nodes, n1, q);
    assert ReqOk(n1, q) by { ReqKept(nodes, n1, q); }
    var n2 := TryGet(n1, q, oom2).0;
    TryGetKeeps(n1, q, oom2);
    var n := AgainAt(n1, q, oom2);
    var r := Released(n2, o1.chain, o1.wnode);
    assert KeepsLinks(nodes, r);
    SameNeeds(nodes, r, p);
    SameNeeds(nodes, r, q);
    if n in o1.chain {
      assert n in o1.chain + [ROOT] && Needs(nodes, p, n);
    } else if o1.wnode != Some(n) {
      assert r[n].treelock < 0 && Needs(r, q, n);
    }
  }

  // ---------------------------------------------------------------- releases

  function ReleaseKey(nodes: Nodes, holds: Holds, k: nat): (Nodes, Holds) {
    if k in holds then (Released(nodes, holds[k].chain, holds[k].wnode), holds - {k}) else (nodes, holds)
  }

  /** `unlock_path` for every path the operation holds. */
  function ReleaseOp(nodes: Nodes, holds: Holds, op: nat): (Nodes, Holds) {
    var (n1, h1) := ReleaseKey(nodes, holds, 2 * op);
    ReleaseKey(n1, h1, 2 * op + 1)
  }

  lemma {:induction false} ReleaseKeyLocks(nodes: Nodes, holds: Holds, k: nat)
    requires Encoded(nodes, holds) && InRange(holds)
    ensures var (r, hs) := ReleaseKey(nodes, holds, k);
      Encoded(r, hs) && InRange(hs) && KeepsLinks(nodes, r) && hs == holds - {k}
  {
    if k in holds {
      ReleaseEncodes(nodes, holds, k);
    } else {
      assert holds - {k} == holds;
    }
  }

  /** Dropping all holds of one operation keeps `Core`. */
  lemma {:induction false} ReleaseCore(nodes: Nodes, holds: Holds, dots: Dots, op: nat)
    requires Core(nodes, holds, dots)
    ensures var (r, hs) := ReleaseOp(nodes, holds, op);
      Core(r, hs, dots) && KeepsLinks(nodes, r) && hs == holds - {2 * op, 2 * op + 1}
  {
    hide Tree, RefOk, Encoded, HoldsOk, ClaimsOk, KeepsLinks, StaysHeld;
    hide ReleaseKey;
    var (n1, h1) := ReleaseKey(nodes, holds, 2 * op);
    var (r, hs) := ReleaseOp(nodes, holds, op);
    assert Encoded(r, hs) && InRange(hs) && KeepsLinks(nodes, r) && hs == holds - {2 * op, 2 * op + 1} by {
      ReleaseKeyLocks(nodes, holds, 2 * op);
      ReleaseKeyLocks(n1, h1, 2 * op + 1);
      KeepsTrans(nodes, n1, r);
      assert hs == holds - {2 * op, 2 * op + 1};
    }
    assert RefOk(r, dots) by { KeepsCounts(nodes, r, dots); }
    assert Tree(r) && HoldsOk(r, hs) && ClaimsOk(r, hs) by {
      KeepsHolds(nodes, r, holds);
      HoldsShrink(r, holds, op);
    }
  }

  lemma {:induction false} HoldsShrink(nodes: Nodes, holds: Holds, op: nat)
    requires Acyclic(nodes) && HoldsOk(nodes, holds) && ClaimsOk(nodes, holds)
    ensures var hs := holds - {2 * op, 2 * op + 1}; HoldsOk(nodes, hs) && ClaimsOk(nodes, hs)
  {
    var hs := holds - {2 * op, 2 * op + 1};
    forall k | k in hs ensures ClaimOk(nodes, hs, k) {
      assert ClaimOk(nodes, holds, k);
      if hs[k].claim.Some? && NodeAt(nodes, hs[k].claim.value).Some? {
        var i :| i in holds && i / 2 == k / 2 && holds[i].wnode == NodeAt(nodes, hs[k].claim.value);
        assert i in hs && hs[i] == holds[i];
      }
    }
  }
}
