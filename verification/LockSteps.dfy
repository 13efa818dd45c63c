/** What every step of the lock protocol keeps, over whole runs. */
module LockSteps {
  import opened Prelude
  import opened NodeTree
  import opened TreeOps
  import opened TreeLocks
  import opened LockCore
  import opened LockTree
  import opened LockProtocol

  // ---------------------------------------------------------------- what the kernel guarantees

  ghost predicate Claims(holds: Holds, op: nat, l: Link) {
    exists k :: k in holds && k / 2 == op && holds[k].claim == Some(l)
  }

  ghost predicate WantsName(q: Request, l: Link) {
    q.write && Link(q.base, q.name) == l
  }

  /** While an operation works on a name in a directory no other unlink or rename of that name is
      in progress, granted or waiting (the kernel holds the directory's mutex). */
  ghost predicate Exclusive(s: State, op: nat, l: Link) {
    && (forall k :: k in s.holds && s.holds[k].claim == Some(l) ==> k / 2 == op)
    && (forall i, q :: Waiting(s.queue, i) && q in s.queue[i].reqs ==> !WantsName(q, l))
  }

  /** The name an unlink may remove: the one it claimed, or the hidden name its node now has. */
  ghost predicate MayRemove(s: State, op: nat, l: Link) {
    || Claims(s.holds, op, l)
    || exists k :: k in s.holds && k / 2 == op && s.holds[k].wnode.Some? && s.holds[k].base == l.parent
                   && Bound(s.nodes, l, s.holds[k].wnode.value)
  }

  /** The kernel does not drop its last lookup of a node that a waiting request works on. */
  ghost predicate NotAwaited(s: State, x: Id) {
    forall i, q :: Waiting(s.queue, i) && q in s.queue[i].reqs ==> q.base != x && Target(s.nodes, q) != Some(x)
  }

  ghost predicate Queued(s: State, op: nat) {
    exists i :: 0 <= i < |s.queue| && s.queue[i].op == op
  }

  ghost predicate Enabled(s: State, step: Step) {
    match step
    case Begin(op, reqs, _) => FreeOp(s.holds, op) && !Queued(s, op) && ReqsOk(s.nodes, reqs)
    case Finish(op, _) => 2 * op in s.holds && !Queued(s, op)
    case Dequeue(op) => exists i :: 0 <= i < |s.queue| && s.queue[i].op == op && s.queue[i].done
    case LookupName(l, newId, _) =>
      && l.parent in s.nodes
      && (NodeAt(s.nodes, l).None? ==> newId !in s.nodes && forall k :: k in s.holds ==> s.holds[k].claim != Some(l))
    case LookupNode(x) => x in s.nodes
    case ForgetNode(x, n) =>
      && x in s.nodes && x != ROOT && 1 <= n <= s.nodes[x].nlookup
      && (n == s.nodes[x].nlookup ==> s.nodes[x].treelock == 0 && NotAwaited(s, x))
    case TakeDot(x, t) => x in s.nodes && t !in s.dots
    case DropDot(t) => t in s.dots
    case Remove(op, l) => MayRemove(s, op, l) && Exclusive(s, op, l)
    case Rename(op, from, to, hiding, _) =>
      && Claims(s.holds, op, from) && Exclusive(s, op, from) && Exclusive(s, op, to)
      && (Claims(s.holds, op, to) || (hiding && to.parent == from.parent))
    case Exchange(op, from, to, _, _) =>
      && Claims(s.holds, op, from) && Claims(s.holds, op, to) && from != to
      && Exclusive(s, op, from) && Exclusive(s, op, to)
  }

  // ---------------------------------------------------------------- the steps

  /** `rename_node`. Its copy of the new name may fail to be allocated, and then the node is left
      without a name. */
  ghost function RenameNodes(nodes: Nodes, from: Link, to: Link, hiding: bool, copied: bool): Nodes
  {
    match NodeAt(nodes, from)
    case None => nodes
    case Some(x) =>
      if NodeAt(nodes, to).Some? && hiding then nodes
      else
        var n1 := if NodeAt(nodes, to).Some? then Detach(nodes, NodeAt(nodes, to).value) else nodes;
        if x !in n1 then n1
        else
          var n2 := Detach(n1, x);
          if copied && x in n2 && to.parent in n2 then Attach(n2, x, to) else n2
  }

  ghost function DetachAt(nodes: Nodes, at: Option<Id>): Nodes {
    if at.Some? && at.value in nodes then Detach(nodes, at.value) else nodes
  }

  ghost function AttachAt(nodes: Nodes, at: Option<Id>, l: Link): Nodes {
    if at.Some? && at.value in nodes && l.parent in nodes then Attach(nodes, at.value, l) else nodes
  }

  /** `exchange_node`: both names are taken away, then given crosswise until a copy fails. */
  ghost function ExchangeNodes(nodes: Nodes, from: Link, to: Link, copied: bool, copied2: bool): Nodes {
    var a, b := NodeAt(nodes, from), NodeAt(nodes, to);
    var n2 := DetachAt(DetachAt(nodes, a), b);
    if a.Some? && !copied then n2
    else
      var n3 := AttachAt(n2, a, to);
      if b.Some? && !copied2 then n3 else AttachAt(n3, b, from)
  }

  ghost predicate Inv(s: State) {
    && Core(s.nodes, s.holds, s.dots)
    && QueueOk(s.nodes, s.holds, s.queue)
    && BlockedBelow(s.nodes, s.queue, |s.queue|)
    && DonesOk(s.holds, s.queue)
  }

  ghost function Begun(s: State, op: nat, reqs: seq<Request>, mem: Memory): State
    requires Tree(s.nodes) && ReqsOk(s.nodes, reqs)
  {
    var a := Try(s.nodes, s.holds, op, reqs, mem(0), mem(1));
    if a.result == Failed(Again) then
      s.(nodes := a.nodes, queue := s.queue + [Waiter(op, reqs, false, Failed(Again))])
    else s.(nodes := a.nodes, holds := a.holds)
  }

  ghost function LetGo(s: State, op: nat): State {
    var (r, hs) := ReleaseOp(s.nodes, s.holds, op);
    s.(nodes := r, holds := hs)
  }

  /** `free_path_wrlock`, `free_path2`: release, and wake up who can go on. */
  ghost function Finished(s: State, op: nat, mem: Memory): State
    requires Inv(s)
  {
    LetGoKeeps(s, op);
    WakeFrom(LetGo(s, op), 0, mem)
  }

  ghost function DotDropped(s: State, t: nat): State
    requires Inv(s) && t in s.dots
  {
    DotUnrefCorrect(s.nodes, s.dots, t);
    s.(nodes := Unref(s.nodes, s.dots[t]), dots := s.dots - {t})
  }

  /** `dequeue_path`, once the element is done. */
  ghost function Dequeued(s: State, op: nat): State
    requires exists i :: 0 <= i < |s.queue| && s.queue[i].op == op && s.queue[i].done
  {
    var i :| 0 <= i < |s.queue| && s.queue[i].op == op && s.queue[i].done;
    s.(queue := DropAt(s.queue, i))
  }

  /** `find_node` with a name. */
  ghost function NameLooked(nodes: Nodes, l: Link, newId: Id, generation: nat): Nodes
    requires l.parent in nodes && (NodeAt(nodes, l).None? ==> newId !in nodes)
  {
    if NodeAt(nodes, l).Some? then IncLookup(nodes, NodeAt(nodes, l).value) else Create(nodes, newId, l, generation)
  }

  /** The state after a step. */
  ghost function Next(s: State, step: Step): State
    requires Inv(s) && Enabled(s, step)
  {
    match step
    case Begin(op, reqs, mem) => Begun(s, op, reqs, mem)
    case Finish(op, mem) => Finished(s, op, mem)
    case Dequeue(op) => Dequeued(s, op)
    case LookupName(l, newId, generation) => s.(nodes := NameLooked(s.nodes, l, newId, generation))
    case LookupNode(x) => s.(nodes := IncLookup(s.nodes, x))
    case ForgetNode(x, n) => s.(nodes := Forget(s.nodes, x, n))
    case TakeDot(x, t) => s.(nodes := DotRef(s.nodes, x), dots := s.dots[t := x])
    case DropDot(t) => DotDropped(s, t)
    case Remove(_, l) => s.(nodes := DetachAt(s.nodes, NodeAt(s.nodes, l)))
    case Rename(_, from, to, hiding, copied) => s.(nodes := RenameNodes(s.nodes, from, to, hiding, copied))
    case Exchange(_, from, to, copied, copied2) => s.(nodes := ExchangeNodes(s.nodes, from, to, copied, copied2))
  }

  // ---------------------------------------------------------------- waiting requests across a step

  /** A step that keeps the waiting requests good and blocked keeps the queue. */
  lemma {:induction false} QueueStep(a: Nodes, b: Nodes, holds: Holds, queue: seq<Waiter>)
    requires Acyclic(a) && Acyclic(b)
    requires QueueOk(a, holds, queue) && BlockedBelow(a, queue, |queue|)
    requires forall i, q :: Waiting(queue, i) && q in queue[i].reqs ==> Follows(a, b, q)
    ensures QueueOk(b, holds, queue) && BlockedBelow(b, queue, |queue|)
  {
    forall i | Waiting(queue, i) ensures WaiterOk(b, holds, queue[i]) {
      assert WaiterOk(a, holds, queue[i]);
      forall q | q in queue[i].reqs ensures ReqOk(b, q) {
        assert Follows(a, b, q);
      }
    }
    hide Hindered, Follows;
    forall i | i < |queue| && Waiting(queue, i) ensures Hindered(b, queue[i].reqs) {
      HinderedFollows(a, b, queue[i].reqs);
    }
  }

  lemma {:induction false} LetGoKeeps(s: State, op: nat)
    requires Inv(s)
    ensures var r := LetGo(s, op);
      && Core(r.nodes, r.holds, r.dots) && QueueOk(r.nodes, r.holds, r.queue)
      && KeepsLinks(s.nodes, r.nodes) && r.holds == s.holds - {2 * op, 2 * op + 1}
  {
    hide Encoded, RefOk, HoldsOk, ClaimsOk, Chain, TopChain, KeepsLinks, BlockedBelow, ReleaseOp;
    var r := LetGo(s, op);
    ReleaseCore(s.nodes, s.holds, s.dots, op);
    forall i | Waiting(s.queue, i) ensures WaiterOk(r.nodes, r.holds, r.queue[i]) {
      assert WaiterOk(s.nodes, s.holds, s.queue[i]);
      ReqsKept(s.nodes, r.nodes, s.queue[i].reqs);
    }
  }

  lemma {:induction false} FinishKeeps(s: State, op: nat, mem: Memory)
    requires Inv(s) && !Queued(s, op)
    ensures Inv(Finished(s, op, mem))
  {
    hide Core, QueueOk, DonesOk, ReleaseOp;
    LetGoKeeps(s, op);
    LetGoAnswers(s, op);
    PassBlocks(LetGo(s, op), 0, mem);
    PassAnswers(LetGo(s, op), 0, mem);
  }

  /** The answers of the others outlive a release. */
  lemma {:induction false} LetGoAnswers(s: State, op: nat)
    requires Inv(s) && !Queued(s, op)
    ensures DonesOk(LetGo(s, op).holds, LetGo(s, op).queue)
  {
    hide Core, QueueOk, BlockedBelow, HoldsPaths, LetGo;
    var r := LetGo(s, op);
    LetGoKeeps(s, op);
    assert r.queue == s.queue by { LetGoQueue(s, op); }
    forall i | 0 <= i < |s.queue| && s.queue[i].done ensures Answered(r.holds, s.queue[i]) {
      assert Answered(s.holds, s.queue[i]) && s.queue[i].op != op;
      AnswerFrame(s.holds, r.holds, s.queue[i]);
    }
  }

  lemma {:induction false} LetGoQueue(s: State, op: nat)
    ensures LetGo(s, op).queue == s.queue
  {
  }

  lemma {:induction false} BeginKeeps(s: State, op: nat, reqs: seq<Request>, mem: Memory)
    requires Inv(s) && FreeOp(s.holds, op) && !Queued(s, op) && ReqsOk(s.nodes, reqs)
    ensures Inv(Begun(s, op, reqs, mem))
  {
    hide Encoded, RefOk, HoldsOk, ClaimsOk, Chain, TopChain, KeepsLinks, StaysHeld, Hindered, TryAll, ReqsOk;
    var r := Begun(s, op, reqs, mem);
    var a := Try(s.nodes, s.holds, op, reqs, mem(0), mem(1));
    TryCore(s.nodes, s.holds, s.dots, op, reqs, mem(0), mem(1));
    TryHolds(s.nodes, s.holds, op, reqs, mem(0), mem(1));
    forall i | Waiting(r.queue, i) ensures WaiterOk(r.nodes, r.holds, r.queue[i]) {
      if i < |s.queue| {
        assert Waiting(s.queue, i);
        OthersStillOk(s.nodes, s.holds, a, op, reqs, s.queue[i]);
      } else {
        ReqsKept(s.nodes, a.nodes, reqs);
      }
    }
    forall i | i < |r.queue| && Waiting(r.queue, i) ensures Hindered(r.nodes, r.queue[i].reqs) {
      if i < |s.queue| {
        assert Waiting(s.queue, i);
        HinderedKept(s.nodes, r.nodes, s.queue[i].reqs);
      } else {
        EncodedSmall(s.nodes, s.holds);
        AgainHindered(s.nodes, reqs, mem(0), mem(1));
      }
    }
    BeginAnswers(s, op, reqs, mem);
  }

  lemma {:induction false} BeginAnswers(s: State, op: nat, reqs: seq<Request>, mem: Memory)
    requires Tree(s.nodes) && DonesOk(s.holds, s.queue) && FreeOp(s.holds, op) && !Queued(s, op)
    requires ReqsOk(s.nodes, reqs)
    ensures DonesOk(Begun(s, op, reqs, mem).holds, Begun(s, op, reqs, mem).queue)
  {
    hide Try, TryAll, ReqsOk, HoldsPaths, Tree;
    var r := Begun(s, op, reqs, mem);
    TryAnswers(s.nodes, s.holds, op, reqs, mem(0), mem(1));
    forall i | 0 <= i < |r.queue| && r.queue[i].done ensures Answered(r.holds, r.queue[i]) {
      assert i < |s.queue| && Answered(s.holds, s.queue[i]) && s.queue[i].op != op;
      AnswerFrame(s.holds, r.holds, s.queue[i]);
    }
  }

  lemma {:induction false} DequeueKeeps(s: State, i: nat)
    requires Inv(s) && i < |s.queue| && s.queue[i].done
    ensures Inv(s.(queue := DropAt(s.queue, i)))
  {
    hide Core, Hindered, Chain, TopChain, WaiterOk;
    var r := DropAt(s.queue, i);
    forall j | Waiting(r, j) ensures WaiterOk(s.nodes, s.holds, r[j]) {
      assert Waiting(s.queue, if j < i then j else j + 1);
    }
    CoreTree(s.nodes, s.holds, s.dots);
    forall j | j < |r| && Waiting(r, j) ensures Hindered(s.nodes, r[j].reqs) {
      assert Waiting(s.queue, if j < i then j else j + 1);
    }
  }

  // ---------------------------------------------------------------- lookups and forgets

  /** With names, chains, lookups and lock words kept, a request stays as it was. */
  lemma {:induction false} ReqFrame(a: Nodes, b: Nodes, q: Request)
    requires Tree(a) && Tree(b) && ReqOk(a, q)
    requires q.base in b && b[q.base].nlookup > 0 && Chain(b, q.base) == Chain(a, q.base)
    requires Target(a, q).Some? ==> Target(b, q) == Target(a, q)
    requires Target(b, q).Some? ==> b[Target(b, q).value].nlookup > 0
    requires forall n :: Needs(a, q, n) && n in a ==> n in b && b[n].treelock == a[n].treelock
    ensures Follows(a, b, q)
  {
    hide Chain, TopChain, NodeAt, UniqueNames;
    if Blocked(a, q) {
      var n :| n in a && Needs(a, q, n) && a[n].treelock < 0;
      assert Needs(b, q, n);
    }
  }

  lemma {:induction false} RecountKeeps(s: State, b: Nodes, dots: Dots)
    requires Inv(s) && Recounted(s.nodes, b) && RefOk(b, dots)
    ensures Inv(State(b, s.holds, s.queue, dots))
  {
    hide Encoded, RefOk, HoldsOk, ClaimsOk, Chain, TopChain, Follows, BlockedBelow;
    RecountedCore(s.nodes, b, s.holds, s.dots, dots);
    forall i, q | Waiting(s.queue, i) && q in s.queue[i].reqs
      ensures Follows(s.nodes, b, q)
    {
      assert WaiterOk(s.nodes, s.holds, s.queue[i]) && ReqOk(s.nodes, q);
      SameNames(s.nodes, b);
      NeedsLive(s.nodes, q);
      ReqFrame(s.nodes, b, q);
    }
    QueueStep(s.nodes, b, s.holds, s.queue);
  }

  lemma {:induction false} SameNames(a: Nodes, b: Nodes)
    requires UniqueNames(a) && a.Keys == b.Keys && forall n :: n in a ==> a[n].link == b[n].link
    ensures forall l :: NodeAt(a, l) == NodeAt(b, l)
  {
    forall l ensures NodeAt(a, l) == NodeAt(b, l) {
      if NodeAt(a, l).Some? { assert Bound(b, l, NodeAt(a, l).value); }
      if NodeAt(b, l).Some? { assert Bound(a, l, NodeAt(b, l).value); }
    }
  }

  lemma {:induction false} NeedsLive(nodes: Nodes, q: Request)
    requires Acyclic(nodes)
    ensures forall n :: Needs(nodes, q, n) ==> n in nodes
  {
    if q.base in nodes {
      ChainMembers(nodes, q.base, Chain(nodes, q.base));
    }
  }

  lemma {:induction false} CoreCounts(nodes: Nodes, holds: Holds, dots: Dots)
    requires Core(nodes, holds, dots)
    ensures Tree(nodes) && RefOk(nodes, dots)
  {
  }

  lemma {:induction false} IncKeeps(s: State, x: Id)
    requires Inv(s) && x in s.nodes
    ensures Inv(s.(nodes := IncLookup(s.nodes, x)))
  {
    hide Core, QueueOk, BlockedBelow, RefOk;
    CoreCounts(s.nodes, s.holds, s.dots);
    IncLookupCorrect(s.nodes, s.dots, x);
    RecountKeeps(s, IncLookup(s.nodes, x), s.dots);
  }

  lemma {:induction false} DotKeeps(s: State, x: Id, t: nat)
    requires Inv(s) && x in s.nodes && t !in s.dots
    ensures Inv(s.(nodes := DotRef(s.nodes, x), dots := s.dots[t := x]))
  {
    hide Core, QueueOk, BlockedBelow, RefOk;
    CoreCounts(s.nodes, s.holds, s.dots);
    DotRefCorrect(s.nodes, s.dots, x, t);
    RecountKeeps(s, DotRef(s.nodes, x), s.dots[t := x]);
  }

  lemma {:induction false} CreateKeeps(s: State, x: Id, l: Link, generation: nat)
    requires Inv(s) && x !in s.nodes && l.parent in s.nodes && NodeAt(s.nodes, l).None?
    requires forall k :: k in s.holds ==> s.holds[k].claim != Some(l)
    ensures Inv(s.(nodes := Create(s.nodes, x, l, generation)))
  {
    hide Encoded, RefOk, HoldsOk, ClaimsOk, Chain, TopChain, Follows, BlockedBelow, Create;
    var b := Create(s.nodes, x, l, generation);
    CreateCore(s.nodes, s.holds, s.dots, x, l, generation);
    forall i, q | Waiting(s.queue, i) && q in s.queue[i].reqs
      ensures Follows(s.nodes, b, q)
    {
      assert WaiterOk(s.nodes, s.holds, s.queue[i]) && ReqOk(s.nodes, q);
      MoreNames(s.nodes, b, x, q);
      NeedsLive(s.nodes, q);
      ReqFrame(s.nodes, b, q);
    }
    QueueStep(s.nodes, b, s.holds, s.queue);
  }

  lemma {:induction false} MoreNames(a: Nodes, b: Nodes, x: Id, q: Request)
    requires UniqueNames(b) && ReqOk(a, q) && b.Keys == a.Keys + {x} && x !in a && b[x].nlookup > 0
    requires forall n :: n in a ==> a[n].link == b[n].link && a[n].nlookup == b[n].nlookup
    ensures Target(a, q).Some? ==> Target(b, q) == Target(a, q)
    ensures Target(b, q).Some? ==> b[Target(b, q).value].nlookup > 0
  {
    if Target(a, q).Some? {
      NodeAtIs(b, Link(q.base, q.name), Target(a, q).value);
    } else if Target(b, q).Some? && Target(b, q).value != x {
      assert Bound(a, Link(q.base, q.name), Target(b, q).value);
    }
  }

  /** What waiting requests work on survives a cascade that starts elsewhere. */
  lemma {:induction false} CollectKeeps(nodes: Nodes, m: Nodes, dots: Dots, r: Nodes, q: Request)
    requires Tree(nodes) && ReqOk(nodes, q) && Tree(r)
    requires m.Keys == nodes.Keys && (forall n :: n in m ==> m[n] == nodes[n].(nlookup := m[n].nlookup))
    requires Tree(m) && OnlyGarbageGone(m, dots, r) && Survivors(m, r) && SameChains(nodes, r)
    requires m[q.base].nlookup > 0 && (Target(nodes, q).Some? ==> m[Target(nodes, q).value].nlookup > 0)
    ensures Follows(nodes, r, q)
  {
    hide Chain, Refs, Blocked;
    assert Referenced(m, dots, q.base);
    assert SameChains(nodes, m) by { TreeFrame(nodes, m); }
    NeededStays(m, dots, r, q.base, Chain(m, q.base));
    assert q.base in Chain(m, q.base);
    NamesKept(nodes, m, dots, r, q);
    NeedsLive(nodes, q);
    ReqFrame(nodes, r, q);
  }

  lemma {:induction false} NamesKept(nodes: Nodes, m: Nodes, dots: Dots, r: Nodes, q: Request)
    requires UniqueNames(nodes) && UniqueNames(r) && Survivors(m, r) && OnlyGarbageGone(m, dots, r)
    requires m.Keys == nodes.Keys && (forall n :: n in m ==> m[n] == nodes[n].(nlookup := m[n].nlookup))
    requires Target(nodes, q).Some? ==> m[Target(nodes, q).value].nlookup > 0
    ensures Target(nodes, q) == Target(r, q)
    ensures Target(r, q).Some? ==> r[Target(r, q).value].nlookup > 0
  {
    var l := Link(q.base, q.name);
    if Target(nodes, q).Some? {
      var x := Target(nodes, q).value;
      assert Referenced(m, dots, x);
      NodeAtIs(r, l, x);
    } else if Target(r, q).Some? {
      assert Bound(nodes, l, Target(r, q).value);
    }
  }

  lemma {:induction false} ForgetKeeps(s: State, x: Id, n: nat)
    requires Inv(s) && Enabled(s, ForgetNode(x, n))
    ensures Inv(s.(nodes := Forget(s.nodes, x, n)))
  {
    hide Core, RefOk, RefOwed, Chain, TopChain, Follows, BlockedBelow, Forget, Tree, OnlyGarbageGone, Target;
    hide SameChains, Survivors;
    var m, r := LowerLookup(s.nodes, x, n), Forget(s.nodes, x, n);
    CoreCounts(s.nodes, s.holds, s.dots);
    ForgetOwes(s.nodes, s.dots, x, n);
    ForgetCore(s.nodes, s.holds, s.dots, x, n);
    CoreCounts(r, s.holds, s.dots);
    forall i, q | Waiting(s.queue, i) && q in s.queue[i].reqs
      ensures Follows(s.nodes, r, q)
    {
      assert WaiterOk(s.nodes, s.holds, s.queue[i]) && ReqOk(s.nodes, q);
      CollectKeeps(s.nodes, m, s.dots, r, q);
    }
    QueueStep(s.nodes, r, s.holds, s.queue);
  }

  lemma {:induction false} DropDotKeeps(s: State, t: nat)
    requires Inv(s) && t in s.dots
    ensures s.dots[t] in s.nodes && Inv(s.(nodes := Unref(s.nodes, s.dots[t]), dots := s.dots - {t}))
  {
    hide Core, Encoded, RefOk, HoldsOk, ClaimsOk, Chain, TopChain, Follows, BlockedBelow, Unref, Tree;
    hide OnlyGarbageGone, Target;
    DropDotCore(s, t);
    CoreTree(s.nodes, s.holds, s.dots);
    var r := Unref(s.nodes, s.dots[t]);
    CoreTree(r, s.holds, s.dots - {t});
    forall i, q | Waiting(s.queue, i) && q in s.queue[i].reqs
      ensures Follows(s.nodes, r, q)
    {
      assert WaiterOk(s.nodes, s.holds, s.queue[i]) && ReqOk(s.nodes, q);
      CollectKeeps(s.nodes, s.nodes, s.dots - {t}, r, q);
    }
    QueueStep(s.nodes, r, s.holds, s.queue);
  }

  lemma {:induction false} DropDotCore(s: State, t: nat)
    requires Core(s.nodes, s.holds, s.dots) && t in s.dots
    ensures s.dots[t] in s.nodes
    ensures var r := Unref(s.nodes, s.dots[t]);
      && Core(r, s.holds, s.dots - {t}) && SameChains(s.nodes, r) && Survivors(s.nodes, r)
      && OnlyGarbageGone(s.nodes, s.dots - {t}, r)
      && (forall n :: n in s.nodes && n !in r ==> s.nodes[n].treelock == 0)
  {
    hide Encoded, RefOk, HoldsOk, ClaimsOk, Chain, TopChain, Unref, OnlyGarbageGone;
    DotUnrefCorrect(s.nodes, s.dots, t);
    CollectCore(s.nodes, s.holds, s.dots - {t}, Unref(s.nodes, s.dots[t]));
  }
}
