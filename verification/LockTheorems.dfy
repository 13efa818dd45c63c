/** The theorems about path locking: they hold after every run of enabled steps, in any order. */
module LockTheorems {
  import opened Prelude
  import opened NodeTree
  import opened TreeOps
  import opened TreeLocks
  import opened LockCore
  import opened LockTree
  import opened LockProtocol
  import opened LockSteps
  import opened LockRuns

  /** Every step keeps the invariant. */
  lemma {:induction false} StepKeeps(s: State, step: Step)
    requires Inv(s) && Enabled(s, step)
    ensures Inv(Next(s, step))
  {
    hide Inv, ReqsOk, Exclusive, Claims, MayRemove, NotAwaited, FreeOp, Create, Forget, Unref, DotRef, IncLookup;
    hide RenameNodes, ExchangeNodes, DetachAt, NodeAt;
    match step
    case Begin(op, reqs, mem) => BeginKeeps(s, op, reqs, mem);
    case Finish(op, mem) => FinishKeeps(s, op, mem);
    case Dequeue(op) =>
      var i :| 0 <= i < |s.queue| && s.queue[i].op == op && s.queue[i].done &&
               Next(s, step) == s.(queue := DropAt(s.queue, i));
      DequeueKeeps(s, i);
    case LookupName(l, newId, generation) =>
      if NodeAt(s.nodes, l).Some? {
        IncKeeps(s, NodeAt(s.nodes, l).value);
      } else {
        CreateKeeps(s, newId, l, generation);
      }
    case LookupNode(x) => IncKeeps(s, x);
    case ForgetNode(x, n) => ForgetKeeps(s, x, n);
    case TakeDot(x, t) => DotKeeps(s, x, t);
    case DropDot(t) => DropDotKeeps(s, t);
    case Remove(op, l) => RemoveKeeps(s, op, l);
    case Rename(op, from, to, hiding, copied) => RenameKeeps(s, op, from, to, hiding, copied);
    case Exchange(op, from, to, copied, copied2) => ExchangeKeeps(s, op, from, to, copied, copied2);
  }

  /** A new session: the root alone, looked up once, nothing held or waiting. */
  ghost function Init(): State {
    State(map[ROOT := Node(None, 1, 1, 0, 0)], map[], [], map[])
  }

  lemma {:induction false} InitHolds()
    ensures Inv(Init())
  {
    var nodes := Init().nodes;
    assert TopChain(nodes, ROOT, [ROOT]);
    assert Children(nodes, ROOT) == {} && DotsOn(map[], ROOT) == {};
    assert Counted(nodes, map[], ROOT, 0);
    assert Readers(map[], ROOT) == {} && Writers(map[], ROOT) == {};
    assert EncodedAt(nodes, map[], ROOT);
  }

  /** Where a sequence of steps leads, if each is enabled when its turn comes. */
  ghost function RunFrom(s: State, steps: seq<Step>): (r: Option<State>)
    requires Inv(s)
    ensures r.Some? ==> Inv(r.value)
    decreases |steps|
  {
    if steps == [] then Some(s)
    else if !Enabled(s, steps[0]) then None
    else
      StepKeeps(s, steps[0]);
      RunFrom(Next(s, steps[0]), steps[1..])
  }

  ghost predicate Reachable(s: State) {
    exists steps :: (InitHolds(); RunFrom(Init(), steps) == Some(s))
  }

  /** A run may go on with any enabled step. */
  lemma {:induction false} ReachNext(s: State, step: Step)
    requires Reachable(s) && Inv(s) && Enabled(s, step)
    ensures Reachable(Next(s, step))
  {
    hide Inv, Enabled, Next;
    InitHolds();
    var steps :| RunFrom(Init(), steps) == Some(s);
    RunAppend(Init(), steps, step, s);
    assert RunFrom(Init(), steps + [step]) == Some(Next(s, step));
  }

  lemma {:induction false} RunAppend(from: State, steps: seq<Step>, step: Step, s: State)
    requires Inv(from) && RunFrom(from, steps) == Some(s) && Enabled(s, step)
    ensures Inv(s) && RunFrom(from, steps + [step]) == Some(Next(s, step))
    decreases |steps|
  {
    hide Inv, Enabled, Next;
    if steps == [] {
      assert steps + [step] == [step] && [step][1..] == [];
      StepKeeps(s, step);
      assert RunFrom(Next(s, step), []) == Some(Next(s, step));
    } else {
      StepKeeps(from, steps[0]);
      RunAppend(Next(from, steps[0]), steps[1..], step, s);
      assert (steps + [step])[0] == steps[0] && (steps + [step])[1..] == steps[1..] + [step];
    }
  }

  lemma {:induction false} ReachableInv(s: State)
    requires Reachable(s)
    ensures Inv(s)
  {
    InitHolds();
    var steps :| RunFrom(Init(), steps) == Some(s);
  }

  // ---------------------------------------------------------------- safety

  /** In every reachable state the lock word of a node says exactly who holds it; a writer is alone;
      and the word fits a C `int`. */
  lemma {:induction false} WordsAreExact(s: State, n: Id)
    requires Reachable(s) && n in s.nodes
    ensures LockWord(s.nodes[n].treelock, |Readers(s.holds, n)|, |Writers(s.holds, n)|)
    ensures INT_MIN < s.nodes[n].treelock <= INT_MAX
    ensures s.nodes[n].treelock == TREELOCK_WRITE <==> |Writers(s.holds, n)| == 1
    ensures s.nodes[n].treelock == 0 <==> Readers(s.holds, n) == {} && Writers(s.holds, n) == {}
  {
    ReachableInv(s);
    assert EncodedAt(s.nodes, s.holds, n);
    FewReaders(s.holds, n);
  }

  /** In every reachable state the chain a release walks up from the base is the chain that was
      locked, and every assert of `unlock_path` holds on it. */
  lemma {:induction false} ReleaseWalksLockedChain(s: State, k: nat)
    requires Reachable(s) && k in s.holds
    ensures var h := s.holds[k];
      && Tree(s.nodes) && h.base in s.nodes && Chain(s.nodes, h.base) == h.chain + [ROOT]
      && (forall n :: n in h.chain ==> n in s.nodes)
      && (forall n :: n in h.chain ==> s.nodes[n].treelock !in {0, TREELOCK_WAIT_OFFSET, TREELOCK_WRITE})
      && (h.wnode.Some? ==> h.wnode.value in s.nodes && s.nodes[h.wnode.value].treelock == TREELOCK_WRITE)
  {
    ReachableInv(s);
    assert HoldOk(s.nodes, s.holds[k]);
    ReleaseAsserts(s.nodes, s.holds, k);
    var h := s.holds[k];
    ChainMembers(s.nodes, h.base, Chain(s.nodes, h.base));
    assert forall n :: n in h.chain ==> n in Chain(s.nodes, h.base);
  }

  /** Once a writer waits for a node (or has it), no path through the node is granted. */
  lemma {:induction false} NegativeWordCloses(s: State, q: Request, oom: Option<nat>, n: Id)
    requires Reachable(s) && q.base in s.nodes && n in s.nodes && s.nodes[n].treelock < 0
    ensures Tree(s.nodes)
    ensures n in Chain(s.nodes, q.base) || Target(s.nodes, q) == Some(n) ==> !TryGet(s.nodes, q, oom).1.Granted?
  {
    hide Reachable, QueueOk, BlockedBelow, TryGet, TopChain, Chain, Target, HoldsOk, ClaimsOk, Encoded, RefOk;
    ReachableInv(s);
    if TryGet(s.nodes, q, oom).1.Granted? {
      TryGetGranted(s.nodes, q, oom);
      var o := TryGet(s.nodes, q, oom).1;
      RootUnheld(s);
      assert forall x :: x in Chain(s.nodes, q.base) ==> x in o.chain || x == ROOT;
    }
  }

  lemma {:induction false} RootUnheld(s: State)
    requires Inv(s)
    ensures s.nodes[ROOT].treelock == 0
  {
    forall k | k in s.holds ensures ROOT !in s.holds[k].chain && s.holds[k].wnode != Some(ROOT) {
      assert HoldOk(s.nodes, s.holds[k]);
      RootLast(s.nodes, s.holds[k].base, Chain(s.nodes, s.holds[k].base), s.holds[k].chain);
    }
    HeldWord(s.nodes, s.holds, ROOT);
  }

  lemma {:induction false} RootLast(nodes: Nodes, id: Id, c: seq<Id>, init: seq<Id>)
    requires TopChain(nodes, id, c) && c == init + [ROOT]
    ensures ROOT !in init
  {
    ChainDistinct(nodes, id, c);
    forall i | 0 <= i < |init| ensures init[i] != ROOT {
      assert c[i] == init[i] && c[|init|] == ROOT;
    }
  }

  /** The assert of `delete_node`: whatever a forget deletes, nobody held. */
  lemma {:induction false} ForgottenUnheld(s: State, x: Id, k: nat, n: Id)
    requires Reachable(s) && Enabled(s, ForgetNode(x, k)) && n in s.nodes && n !in Forget(s.nodes, x, k)
    ensures s.nodes[n].treelock == 0 && Readers(s.holds, n) == {} && Writers(s.holds, n) == {}
  {
    hide Reachable, Core, Forget, QueueOk, BlockedBelow, Readers, Writers, NotAwaited;
    ReachableInv(s);
    ForgetCore(s.nodes, s.holds, s.dots, x, k);
    WordsAreExact(s, n);
  }

  /** The same for the end of a lookup of ".". */
  lemma {:induction false} DroppedUnheld(s: State, t: nat, n: Id)
    requires Reachable(s) && t in s.dots && s.dots[t] in s.nodes && n in s.nodes && n !in Unref(s.nodes, s.dots[t])
    ensures s.nodes[n].treelock == 0 && Readers(s.holds, n) == {} && Writers(s.holds, n) == {}
  {
    hide Reachable, Core, Unref, QueueOk, BlockedBelow, Readers, Writers;
    ReachableInv(s);
    DropDotCore(s, t);
    WordsAreExact(s, n);
  }

  /** In every reachable state the tree is well formed, every count is exact, and every live node is
      referred to, directly or through a descendant. */
  lemma {:induction false} NothingLeaks(s: State)
    requires Reachable(s)
    ensures Tree(s.nodes) && RefOk(s.nodes, s.dots)
    ensures forall n :: n in s.nodes ==> Needed(s.nodes, s.dots, n)
  {
    ReachableInv(s);
    forall n | n in s.nodes ensures Needed(s.nodes, s.dots, n) {
      AllNeeded(s.nodes, s.dots, n);
    }
  }

  /** A rename under both path locks cannot move a directory below itself: the locks alone rule it
      out, without any check of the request. */
  lemma {:induction false} NoRenameIntoOwnSubtree(s: State, op: nat, from: Link, to: Link)
    requires Reachable(s) && Claims(s.holds, op, from) && Claims(s.holds, op, to)
    ensures Tree(s.nodes) && to.parent in s.nodes
    ensures NodeAt(s.nodes, from).Some? ==> NodeAt(s.nodes, from).value !in Chain(s.nodes, to.parent)
  {
    ReachableInv(s);
    var d :| d in s.holds && d / 2 == op && s.holds[d].claim == Some(to);
    var k :| k in s.holds && k / 2 == op && s.holds[k].claim == Some(from);
    CoreBases(s.nodes, s.holds, s.dots);
    assert ClaimOk(s.nodes, s.holds, k);
    if NodeAt(s.nodes, from).Some? {
      OwnedOffChains(s.nodes, s.holds, s.dots, op, NodeAt(s.nodes, from).value);
    }
  }

  // ---------------------------------------------------------------- what the steps do to names

  /** A lookup of a name that leads nowhere binds it to the new node; every other name leads where it did, and a lookup
      of a bound name changes no binding. */
  lemma {:induction false} LookupBinds(s: State, l: Link, newId: Id, generation: nat, n: State, k: Link)
    requires Reachable(s) && Inv(s) && Enabled(s, LookupName(l, newId, generation))
    requires n == Next(s, LookupName(l, newId, generation))
    ensures NodeAt(n.nodes, k) == if k == l && NodeAt(s.nodes, l).None? then Some(newId) else NodeAt(s.nodes, k)
  {
    hide Reachable, Inv, NodeAt, Create, IncLookup, UniqueNames;
    InvNames(s);
    StepKeeps(s, LookupName(l, newId, generation));
    InvNames(n);
    SameBinding(s.nodes, n.nodes, k);
    if NodeAt(s.nodes, l).Some? {
      CountedBindings(s.nodes, NodeAt(s.nodes, l).value, k);
    } else {
      CreatedBindings(s.nodes, newId, l, generation, k);
      NodeAtIs(n.nodes, l, newId);
    }
  }

  lemma {:induction false} CountedBindings(nodes: Nodes, x: Id, k: Link)
    requires x in nodes
    ensures forall y: Id :: Bound(IncLookup(nodes, x), k, y) <==> Bound(nodes, k, y)
  {
  }

  lemma {:induction false} CreatedBindings(nodes: Nodes, x: Id, l: Link, generation: nat, k: Link)
    requires x !in nodes && l.parent in nodes
    ensures Bound(Create(nodes, x, l, generation), l, x)
    ensures k != l ==> forall y: Id :: Bound(Create(nodes, x, l, generation), k, y) <==> Bound(nodes, k, y)
  {
  }

  /** An unlink takes away the binding of its name and no other. */
  lemma {:induction false} RemoveUnbinds(s: State, op: nat, l: Link, n: State, k: Link)
    requires Reachable(s) && Inv(s) && Enabled(s, Remove(op, l)) && n == Next(s, Remove(op, l))
    ensures NodeAt(n.nodes, k) == if k == l then None else NodeAt(s.nodes, k)
  {
    hide Reachable, Inv, DetachAt, MayRemove, Exclusive;
    RemoveKeeps(s, op, l);
    InvNames(s);
    InvNames(n);
    SameBinding(s.nodes, n.nodes, k);
    hide NodeAt;
  }

  /** Where the same node, if any, is bound in both, both lookups agree. */
  lemma {:induction false} SameBinding(a: Nodes, b: Nodes, k: Link)
    requires UniqueNames(a) && UniqueNames(b)
    ensures (forall y: Id :: Bound(a, k, y) <==> Bound(b, k, y)) ==> NodeAt(a, k) == NodeAt(b, k)
  {
    if NodeAt(a, k).Some? && Bound(b, k, NodeAt(a, k).value) { NodeAtIs(b, k, NodeAt(a, k).value); }
  }

  /** A completed rename moves the binding: the new name leads to the node of the old one, the old name leads
      nowhere, every other name leads where it did. */
  lemma {:induction false} RenameMovesBinding(s: State, op: nat, from: Link, to: Link, n: State, k: Link)
    requires Reachable(s) && Inv(s) && Enabled(s, Rename(op, from, to, false, true))
    requires n == Next(s, Rename(op, from, to, false, true))
    requires NodeAt(s.nodes, from).Some?
    ensures NodeAt(n.nodes, k) ==
            if k == to then NodeAt(s.nodes, from) else if k == from then None else NodeAt(s.nodes, k)
  {
    hide Reachable, Inv, RenameNodes, Claims, Exclusive;
    RenameKeeps(s, op, from, to, false, true);
    InvNames(s);
    InvNames(n);
    SameBinding(s.nodes, n.nodes, k);
    NodeAtIs(n.nodes, to, NodeAt(s.nodes, from).value);
    hide NodeAt;
  }

  /** A completed exchange swaps the two bindings and keeps every other. */
  lemma {:induction false} ExchangeSwaps(s: State, op: nat, from: Link, to: Link, n: State, k: Link)
    requires Reachable(s) && Inv(s) && Enabled(s, Exchange(op, from, to, true, true))
    requires n == Next(s, Exchange(op, from, to, true, true))
    ensures NodeAt(n.nodes, k) ==
            if k == to then NodeAt(s.nodes, from) else if k == from then NodeAt(s.nodes, to) else NodeAt(s.nodes, k)
  {
    hide Reachable, Inv, ExchangeNodes, Claims, Exclusive;
    ExchangeKeeps(s, op, from, to, true, true);
    InvNames(s);
    InvNames(n);
    SameBinding(s.nodes, n.nodes, k);
    if NodeAt(s.nodes, from).Some? { NodeAtIs(n.nodes, to, NodeAt(s.nodes, from).value); }
    if NodeAt(s.nodes, to).Some? { NodeAtIs(n.nodes, from, NodeAt(s.nodes, to).value); }
    hide NodeAt;
  }

  // ---------------------------------------------------------------- waiting

  /** In every reachable state a request that still waits needs a node that some other operation holds, and that
      hold or the mark on it closes the node to everybody else; or it asks for two paths that are in each
      other's way. */
  lemma {:induction false} WaitersAreBlocked(s: State, i: nat)
    requires Reachable(s) && Waiting(s.queue, i)
    ensures Tree(s.nodes) && ReqsOk(s.nodes, s.queue[i].reqs)
    ensures var qs := s.queue[i].reqs;
      || (|qs| == 2 && Crossed(s.nodes, qs[0], qs[1]))
      || (exists j, k, n ::
           && 0 <= j < |qs| && Needs(s.nodes, qs[j], n) && n in s.nodes && s.nodes[n].treelock < 0
           && k in s.holds && k / 2 != s.queue[i].op && (n in s.holds[k].chain || s.holds[k].wnode == Some(n)))
  {
    hide Encoded, RefOk, HoldsOk, ClaimsOk, Chain, TopChain, Reachable, Target, Crossed;
    ReachableInv(s);
    assert WaiterOk(s.nodes, s.holds, s.queue[i]) && Hindered(s.nodes, s.queue[i].reqs);
    var qs := s.queue[i].reqs;
    if !(|qs| == 2 && Crossed(s.nodes, qs[0], qs[1])) {
      var j := if Blocked(s.nodes, qs[0]) then 0 else 1;
      var n :| n in s.nodes && Needs(s.nodes, qs[j], n) && s.nodes[n].treelock < 0;
      HeldWord(s.nodes, s.holds, n);
      var k :| k in s.holds && (n in s.holds[k].chain || s.holds[k].wnode == Some(n));
      assert k / 2 != s.queue[i].op;
    }
  }

  lemma {:induction false} BlockedFails(nodes: Nodes, q: Request, oom: Option<nat>)
    requires Tree(nodes) && q.base in nodes && Blocked(nodes, q)
    ensures !TryGet(nodes, q, oom).1.Granted?
  {
    var n :| n in nodes && Needs(nodes, q, n) && nodes[n].treelock < 0;
    UnfreeFails(nodes, q, oom, n);
  }

  /** A path is refused for a needed node that is written or marked, or to be written and not free. */
  lemma {:induction false} UnfreeFails(nodes: Nodes, q: Request, oom: Option<nat>, n: Id)
    requires Tree(nodes) && q.base in nodes && n in nodes && Needs(nodes, q, n)
    requires nodes[n].treelock < 0 || (Target(nodes, q) == Some(n) && nodes[n].treelock != 0)
    ensures !TryGet(nodes, q, oom).1.Granted?
  {
    hide TryGet, Chain, TopChain;
    if TryGet(nodes, q, oom).1.Granted? {
      TryGetGranted(nodes, q, oom);
    }
  }

  /** Two paths that are in each other's way are never held together. */
  lemma {:induction false} CrossedFails(nodes: Nodes, p: Request, q: Request, oom: Option<nat>, oom2: Option<nat>)
    requires Tree(nodes) && ReqOk(nodes, p) && ReqOk(nodes, q) && Crossed(nodes, p, q)
    ensures TryAll(nodes, [p, q], oom, oom2).1.Failed?
  {
    hide TryGet, Chain, TopChain, NodeAt, Target;
    var (n1, o1) := TryGet(nodes, p, oom);
    if o1.Granted? {
      TryGetGranted(nodes, p, oom);
      TryGetKeeps(nodes, p, oom);
      SameNeeds(nodes, n1, q);
      var n := FirstInTheWay(nodes, p, q, o1);
      UnfreeFails(n1, q, oom2, n);
    }
  }

  lemma {:induction false} FirstInTheWay(nodes: Nodes, p: Request, q: Request, o: Outcome) returns (n: Id)
    requires Tree(nodes) && p.base in nodes && q.base in nodes && Crossed(nodes, p, q)
    requires o.Granted? && o.wnode == Target(nodes, p)
    requires Chain(nodes, p.base) == o.chain + [ROOT]
    requires forall n :: n in o.chain ==> n in nodes && nodes[n].treelock >= 0
    requires o.wnode.Some? ==> o.wnode.value in nodes
    ensures n in nodes && Needs(nodes, q, n)
    ensures var word := Locked(nodes, o.chain, o.wnode)[n].treelock;
      word < 0 || (Target(nodes, q) == Some(n) && word != 0)
  {
    hide Chain, TopChain, NodeAt;
    n := if o.wnode.Some? && Needs(nodes, q, o.wnode.value) then o.wnode.value else Target(nodes, q).value;
  }

  /** No lost wake-up: in every reachable state a request that waits, for one path or for two, could not proceed:
      tried again, it would not be granted. */
  lemma {:induction false} WaiterNotGranted(s: State, i: nat, oom: Option<nat>, oom2: Option<nat>)
    requires Reachable(s) && Waiting(s.queue, i)
    ensures Tree(s.nodes) && ReqsOk(s.nodes, s.queue[i].reqs)
    ensures TryAll(s.nodes, s.queue[i].reqs, oom, oom2).1.Failed?
  {
    hide Reachable, TryGet, Chain, TopChain, Target, Needs;
    ReachableInv(s);
    assert WaiterOk(s.nodes, s.holds, s.queue[i]);
    HinderedFails(s.nodes, s.queue[i].reqs, oom, oom2);
  }

  lemma {:induction false} HinderedFails(nodes: Nodes, qs: seq<Request>, oom: Option<nat>, oom2: Option<nat>)
    requires Tree(nodes) && ReqsOk(nodes, qs) && Hindered(nodes, qs)
    ensures TryAll(nodes, qs, oom, oom2).1.Failed?
  {
    hide TryGet, Chain, TopChain, Target, Needs, Crossed;
    assert qs[0] in qs && (|qs| == 2 ==> qs[1] in qs);
    if Blocked(nodes, qs[0]) {
      BlockedFails(nodes, qs[0], oom);
    } else if Blocked(nodes, qs[1]) {
      SecondFails(nodes, qs[0], qs[1], oom, oom2);
      assert qs == [qs[0], qs[1]];
    } else {
      CrossedFails(nodes, qs[0], qs[1], oom, oom2);
      assert qs == [qs[0], qs[1]];
    }
  }

  lemma {:induction false} SecondFails(nodes: Nodes, p: Request, q: Request, oom: Option<nat>, oom2: Option<nat>)
    requires Tree(nodes) && ReqOk(nodes, p) && ReqOk(nodes, q) && Blocked(nodes, q)
    ensures TryAll(nodes, [p, q], oom, oom2).1.Failed?
  {
    hide TryGet, Chain, TopChain, NodeAt, Target;
    var (n1, o1) := TryGet(nodes, p, oom);
    if o1.Granted? {
      TryGetGranted(nodes, p, oom);
      TryGetKeeps(nodes, p, oom);
      SameNeeds(nodes, n1, q);
      var n :| n in nodes && Needs(nodes, q, n) && nodes[n].treelock < 0;
      assert Needs(n1, q, n) && n1[n].treelock < 0;
      BlockedFails(n1, q, oom2);
    }
  }

  // ---------------------------------------------------------------- who is kept out

  /** The path of a request goes through the node or to it. */
  ghost predicate Touches(nodes: Nodes, q: Request, w: Id)
    requires Tree(nodes)
  {
    q.base in nodes && (w in Chain(nodes, q.base) || Target(nodes, q) == Some(w))
  }

  /** No path through the node, or to it, is granted. */
  ghost predicate Closed(nodes: Nodes, w: Id)
    requires Tree(nodes)
  {
    forall q, oom :: Touches(nodes, q, w) ==> !TryGet(nodes, q, oom).1.Granted?
  }

  /** Every node of the chain below the root is free of writers and marks, and the chain ends at the root. */
  ghost predicate OpenTo(nodes: Nodes, w: Id)
    requires Tree(nodes) && w in nodes
  {
    && Chain(nodes, w)[|Chain(nodes, w)| - 1] == ROOT
    && forall n :: n in Chain(nodes, w) && n != ROOT ==> n in nodes && nodes[n].treelock >= 0
  }

  /** When a node is closed: exactly when a node on its way to the root is written or marked, or the way does not
      lead to the root. */
  lemma {:induction false} ClosedExactly(nodes: Nodes, w: Id)
    requires Tree(nodes) && w in nodes
    ensures Closed(nodes, w) <==> !OpenTo(nodes, w)
  {
    hide TryGet, Chain, TopChain, Target;
    if OpenTo(nodes, w) {
      var q := Request(w, "", false);
      OpenGranted(nodes, q);
      assert w in Chain(nodes, q.base) by { OnOwnChain(nodes, w); }
    } else {
      forall q, oom | Touches(nodes, q, w) ensures !TryGet(nodes, q, oom).1.Granted? {
        if TryGet(nodes, q, oom).1.Granted? {
          GrantedOpen(nodes, q, oom, w);
        }
      }
    }
  }

  lemma {:induction false} OnOwnChain(nodes: Nodes, w: Id)
    requires Tree(nodes) && w in nodes
    ensures w in Chain(nodes, w)
  {
    assert Chain(nodes, w)[0] == w;
  }

  /** The converse of `TryGetGranted` for reading. */
  lemma {:induction false} OpenGranted(nodes: Nodes, q: Request)
    requires Tree(nodes) && q.base in nodes && !q.write && OpenTo(nodes, q.base)
    ensures TryGet(nodes, q, None).1.Granted?
  {
    var c := Chain(nodes, q.base);
    ChainEnds(nodes, q.base, c);
    WalkOpen(nodes, q.base, c, 0);
  }

  lemma {:induction false} WalkOpen(nodes: Nodes, id: Id, c: seq<Id>, i: nat)
    requires Tree(nodes) && TopChain(nodes, id, c) && i < |c| && c[|c| - 1] == ROOT
    requires forall n :: n in c && n != ROOT ==> n in nodes && nodes[n].treelock >= 0
    ensures (ChainEnds(nodes, id, c); Walk(nodes, c, i, None).1.None?)
    decreases |c| - i
  {
    ChainEnds(nodes, id, c);
    ChainNext(nodes, id, c, i);
    assert c[i] in c;
    if i < |c| - 1 {
      WalkOpen(nodes, id, c, i + 1);
    }
  }

  lemma {:induction false} GrantedOpen(nodes: Nodes, q: Request, oom: Option<nat>, w: Id)
    requires Tree(nodes) && w in nodes && q.base in nodes && TryGet(nodes, q, oom).1.Granted?
    requires w in Chain(nodes, q.base) || Target(nodes, q) == Some(w)
    ensures OpenTo(nodes, w)
  {
    hide TryGet, TopChain;
    TryGetGranted(nodes, q, oom);
    var c := Chain(nodes, q.base);
    var o := TryGet(nodes, q, oom).1;
    assert forall n :: n in c && n != ROOT ==> n in o.chain;
    if w in c {
      var i := ChainThrough(nodes, q.base, c, w);
      ChainUnique(nodes, w, c[i..], Chain(nodes, w));
    } else {
      ParentLive(nodes, w);
    }
  }

  /** The last node of a path: the one to be written, or else the base. */
  ghost function Last(nodes: Nodes, q: Request): Id {
    if Target(nodes, q).Some? then Target(nodes, q).value else q.base
  }

  lemma {:induction false} BlockedCloses(nodes: Nodes, p: Request)
    requires Tree(nodes) && p.base in nodes && Blocked(nodes, p)
    ensures Closed(nodes, Last(nodes, p))
  {
    hide TryGet, Chain, TopChain, NodeAt;
    var n :| n in nodes && Needs(nodes, p, n) && nodes[n].treelock < 0;
    if Target(nodes, p).Some? {
      ParentLive(nodes, Target(nodes, p).value);
    }
    OnOwnChain(nodes, Last(nodes, p));
    assert n in Chain(nodes, Last(nodes, p)) && n != ROOT by { NotRoot(nodes, p); }
    ClosedExactly(nodes, Last(nodes, p));
  }

  lemma {:induction false} NotRoot(nodes: Nodes, p: Request)
    requires Tree(nodes)
    ensures Target(nodes, p) != Some(ROOT)
  {
  }

  /** Nobody joins while somebody waits: in every reachable state a waiting request keeps every path out of the
      last node of its path, or, if it asks for two, out of the last node of one of them, unless its two
      paths are in each other's way. */
  lemma {:induction false} NoReaderJoins(s: State, i: nat)
    requires Reachable(s) && Waiting(s.queue, i)
    ensures Tree(s.nodes) && ReqsOk(s.nodes, s.queue[i].reqs)
    ensures var qs := s.queue[i].reqs;
      if |qs| == 1 then Closed(s.nodes, Last(s.nodes, qs[0]))
      else
        || Closed(s.nodes, Last(s.nodes, qs[0])) || Closed(s.nodes, Last(s.nodes, qs[1]))
        || Crossed(s.nodes, qs[0], qs[1])
  {
    hide Reachable, Chain, TopChain, Target, Needs, Closed, Last, Crossed, Blocked;
    ReachableInv(s);
    var qs := s.queue[i].reqs;
    assert WaiterOk(s.nodes, s.holds, s.queue[i]) && Hindered(s.nodes, qs);
    assert qs[0] in qs && (|qs| == 2 ==> qs[1] in qs);
    if Blocked(s.nodes, qs[0]) {
      BlockedCloses(s.nodes, qs[0]);
    } else if Blocked(s.nodes, qs[1]) {
      BlockedCloses(s.nodes, qs[1]);
    }
  }

  /** So when the last hold is released, no request is left waiting, but for two paths in each other's way. */
  lemma {:induction false} LastReleaseWakesAll(s: State, i: nat)
    requires Reachable(s) && s.holds == map[] && 0 <= i < |s.queue|
    ensures Tree(s.nodes)
    ensures s.queue[i].done || (|s.queue[i].reqs| == 2 && Crossed(s.nodes, s.queue[i].reqs[0], s.queue[i].reqs[1]))
  {
    hide Reachable;
    ReachableInv(s);
    if !s.queue[i].done {
      WaitersAreBlocked(s, i);
    }
  }

  /** No double grant: a wake-up pass leaves the elements that are done, and every existing hold, as
      they were. */
  lemma {:induction false} NoDoubleGrant(s: State, op: nat, mem: Memory)
    requires Reachable(s)
    ensures Inv(s)
    ensures (LetGoKeeps(s, op); var r := WakeFrom(LetGo(s, op), 0, mem);
      && |r.queue| == |s.queue|
      && (forall j :: 0 <= j < |s.queue| && s.queue[j].done ==> r.queue[j] == s.queue[j])
      && (forall k :: k in s.holds && k / 2 != op ==> k in r.holds && r.holds[k] == s.holds[k]))
  {
    hide Core, QueueOk, Reachable, LetGo, KeepsLinks, Blocked, Chain, TopChain;
    ReachableInv(s);
    LetGoKeeps(s, op);
    LetGoQueue(s, op);
    CoreTree(LetGo(s, op).nodes, LetGo(s, op).holds, LetGo(s, op).dots);
    PassBlocks(LetGo(s, op), 0, mem);
  }
}
