/** What every run adds up to: lookups and forgets of each node, and what has become of each operation. */
module LockLedger {
  import opened Prelude
  import opened NodeTree
  import opened TreeOps
  import opened TreeLocks
  import opened LockCore
  import opened LockTree
  import opened LockProtocol
  import opened LockSteps
  import opened LockRuns
  import opened LockTheorems

  // ---------------------------------------------------------------- lookups and forgets

  /** What a step adds to the lookups of a node. */
  ghost function Adds(s: State, step: Step, x: Id): int {
    match step
    case LookupName(l, newId, _) =>
      if NodeAt(s.nodes, l) == Some(x) || (NodeAt(s.nodes, l).None? && newId == x) then 1 else 0
    case LookupNode(y) => if y == x then 1 else 0
    case ForgetNode(y, n) => if y == x then 0 - n else 0
    case _ => 0
  }

  lemma {:induction false} KeptLookups(a: Nodes, b: Nodes)
    requires KeepsLinks(a, b)
    ensures SameLookups(a, b)
  {
  }

  lemma {:induction false} SameLookupsTrans(a: Nodes, b: Nodes, c: Nodes)
    requires SameLookups(a, b) && SameLookups(b, c)
    ensures SameLookups(a, c)
  {
  }

  lemma {:induction false} FinishLookups(s: State, op: nat, mem: Memory)
    requires Inv(s) && !Queued(s, op)
    ensures SameLookups(s.nodes, Finished(s, op, mem).nodes)
  {
    hide Inv, SameLookups, KeepsLinks, LetGo;
    LetGoKeeps(s, op);
    LetGoNobody(LetGo(s, op));
    PassBlocks(LetGo(s, op), 0, mem);
    KeptLookups(s.nodes, LetGo(s, op).nodes);
    KeptLookups(LetGo(s, op).nodes, Finished(s, op, mem).nodes);
    SameLookupsTrans(s.nodes, LetGo(s, op).nodes, Finished(s, op, mem).nodes);
  }

  lemma {:induction false} LetGoNobody(s: State)
    requires Core(s.nodes, s.holds, s.dots)
    ensures Tree(s.nodes) && BlockedBelow(s.nodes, s.queue, 0)
  {
  }

  lemma {:induction false} BeginLookups(s: State, op: nat, reqs: seq<Request>, mem: Memory)
    requires Inv(s) && FreeOp(s.holds, op) && ReqsOk(s.nodes, reqs)
    ensures SameLookups(s.nodes, Begun(s, op, reqs, mem).nodes)
  {
    hide SameLookups, KeepsLinks, Try, QueueOk, BlockedBelow, DonesOk, ReqsOk;
    TryCore(s.nodes, s.holds, s.dots, op, reqs, mem(0), mem(1));
    KeptLookups(s.nodes, Begun(s, op, reqs, mem).nodes);
  }

  lemma {:induction false} LookupAdds(s: State, l: Link, newId: Id, generation: nat, x: Id)
    requires Inv(s) && Enabled(s, LookupName(l, newId, generation))
    ensures Lookups(Next(s, LookupName(l, newId, generation)).nodes, x) ==
            Lookups(s.nodes, x) + Adds(s, LookupName(l, newId, generation), x)
  {
    hide Inv, Create, IncLookup, NodeAt, Tree, RefOk, LookedUp, Lookups;
    InvCounts(s);
    if NodeAt(s.nodes, l).Some? {
      var y := NodeAt(s.nodes, l).value;
      IncLookupCorrect(s.nodes, s.dots, y);
      CountedUp(s.nodes, IncLookup(s.nodes, y), y, x);
    } else {
      CreateCorrect(s.nodes, s.dots, newId, l, generation);
      CountedUp(s.nodes, Create(s.nodes, newId, l, generation), newId, x);
    }
  }

  lemma {:induction false} InvCounts(s: State)
    requires Inv(s)
    ensures Tree(s.nodes) && RefOk(s.nodes, s.dots)
  {
  }

  lemma {:induction false} DropLookups(s: State, t: nat)
    requires Inv(s) && t in s.dots
    ensures SameLookups(s.nodes, DotDropped(s, t).nodes)
  {
    hide QueueOk, BlockedBelow, DonesOk, SameLookups, Survivors, OnlyGarbageGone, Unref;
    DropDotCore(s, t);
    GarbageLookups(s.nodes, s.dots - {t}, Unref(s.nodes, s.dots[t]));
  }

  /** Every step changes the lookups of every node by exactly what it adds. */
  lemma {:induction false} StepLookups(s: State, step: Step, x: Id)
    requires Inv(s) && Enabled(s, step)
    ensures Lookups(Next(s, step).nodes, x) == Lookups(s.nodes, x) + Adds(s, step, x)
  {
    hide Inv, ReqsOk, Exclusive, Claims, MayRemove, NotAwaited, FreeOp, Create, Forget, IncLookup, RenameNodes;
    hide ExchangeNodes, DetachAt, NodeAt, Finished, DotDropped, Begun, Lookups;
    match step
    case Begin(op, reqs, mem) => BeginLookups(s, op, reqs, mem);
    case Finish(op, mem) => FinishLookups(s, op, mem);
    case Dequeue(op) =>
    case LookupName(l, newId, generation) => LookupAdds(s, l, newId, generation, x);
    case LookupNode(y) =>
      InvCounts(s);
      IncLookupCorrect(s.nodes, s.dots, y);
      CountedUp(s.nodes, IncLookup(s.nodes, y), y, x);
    case ForgetNode(y, n) =>
      InvCounts(s);
      ForgetCorrect(s.nodes, s.dots, y, n);
    case TakeDot(y, t) => DotLookups(s.nodes, y);
    case DropDot(t) => DropLookups(s, t);
    case Remove(op, l) => RemoveKeeps(s, op, l);
    case Rename(op, from, to, hiding, copied) => RenameKeeps(s, op, from, to, hiding, copied);
    case Exchange(op, from, to, copied, copied2) => ExchangeKeeps(s, op, from, to, copied, copied2);
  }

  lemma {:induction false} CountedUp(a: Nodes, b: Nodes, y: Id, x: Id)
    requires LookedUp(a, b, y)
    ensures Lookups(b, x) == Lookups(a, x) + if x == y then 1 else 0
  {
  }

  lemma {:induction false} DotLookups(nodes: Nodes, y: Id)
    requires y in nodes
    ensures SameLookups(nodes, DotRef(nodes, y))
  {
  }

  /** The lookups of a node over a run, less the counts forgotten. */
  ghost function Balance(s: State, steps: seq<Step>, x: Id): int
    requires Inv(s)
    decreases |steps|
  {
    if steps == [] || !Enabled(s, steps[0]) then 0
    else
      StepKeeps(s, steps[0]);
      Adds(s, steps[0], x) + Balance(Next(s, steps[0]), steps[1..], x)
  }

  lemma {:induction false} RunLookups(s: State, steps: seq<Step>, r: State, x: Id)
    requires Inv(s) && RunFrom(s, steps) == Some(r)
    ensures Lookups(r.nodes, x) == Lookups(s.nodes, x) + Balance(s, steps, x)
    decreases |steps|
  {
    hide Inv, Next, Enabled, Adds, Lookups;
    if steps != [] {
      StepKeeps(s, steps[0]);
      StepLookups(s, steps[0], x);
      RunLookups(Next(s, steps[0]), steps[1..], r, x);
    }
  }

  /** Over every run the lookups of a node are those made, less those forgotten; the root starts with one. So the
      reference a node has for being looked up is there exactly while that is positive. */
  lemma {:induction false} LookupsBalance(steps: seq<Step>, s: State, x: Id)
    requires Inv(Init()) && RunFrom(Init(), steps) == Some(s)
    ensures Lookups(s.nodes, x) == Balance(Init(), steps, x) + if x == ROOT then 1 else 0
    ensures x in s.nodes ==>
      s.nodes[x].refctr == (if Lookups(s.nodes, x) > 0 then 1 else 0) + |Children(s.nodes, x)| + |DotsOn(s.dots, x)|
  {
    RunLookups(Init(), steps, s, x);
    InvCounts(s);
    assert x in s.nodes ==> Counted(s.nodes, s.dots, x, 0);
  }

  // ---------------------------------------------------------------- operations

  /** What has become of an operation. */
  datatype Phase = Idle | Active(reqs: seq<Request>) | Refused(err: Outcome)

  /** The answer in the queue for an operation. */
  ghost function AnswerFor(queue: seq<Waiter>, op: nat): Result {
    if exists i :: 0 <= i < |queue| && queue[i].op == op
    then var i :| 0 <= i < |queue| && queue[i].op == op; queue[i].err
    else Failed(Again)
  }

  /** A request begins an operation unless it is refused at once; a release ends it; taking an error from the queue
      ends it too. */
  ghost function PhaseAfter(s: State, step: Step, op: nat, phase: Phase): Phase
    requires Inv(s) && Enabled(s, step)
  {
    match step
    case Begin(o, reqs, mem) =>
      if o != op then phase
      else
        InvTree(s);
        var result := TryAll(s.nodes, reqs, mem(0), mem(1)).1;
        if result.Held? || result.err == Again then Active(reqs) else Refused(result.err)
    case Finish(o, _) => if o == op then Idle else phase
    case Dequeue(o) =>
      if o == op && AnswerFor(s.queue, op).Failed? then Refused(AnswerFor(s.queue, op).err) else phase
    case _ => phase
  }

  lemma {:induction false} InvTree(s: State)
    requires Inv(s)
    ensures Tree(s.nodes)
  {
  }

  /** The operation is in the queue with the request. */
  ghost predicate InQueue(queue: seq<Waiter>, op: nat, reqs: seq<Request>) {
    exists i :: 0 <= i < |queue| && queue[i].op == op && queue[i].reqs == reqs
  }

  /** An operation under way holds its paths or is in the queue with its request; any other is nowhere. */
  ghost predicate PhaseOk(s: State, op: nat, phase: Phase) {
    match phase
    case Active(reqs) =>
      && ((exists grants :: HoldsPaths(s.holds, op, reqs, grants)) || InQueue(s.queue, op, reqs))
      && (forall i :: 0 <= i < |s.queue| && s.queue[i].op == op ==> s.queue[i].reqs == reqs)
    case _ => 2 * op !in s.holds && 2 * op + 1 !in s.holds && !Queued(s, op)
  }

  /** A request that has to wait is put at the end of the queue as it is; one that is granted holds its paths; one
      that is refused leaves nothing. */
  lemma {:induction false} BeginQueues(s: State, op: nat, reqs: seq<Request>, mem: Memory, n: State)
    requires Inv(s) && Enabled(s, Begin(op, reqs, mem)) && n == Next(s, Begin(op, reqs, mem))
    ensures Tree(s.nodes)
    ensures var result := TryAll(s.nodes, reqs, mem(0), mem(1)).1;
      match result
      case Held(grants) => n.queue == s.queue && HoldsPaths(n.holds, op, reqs, grants)
      case Failed(e) =>
        && n.holds == s.holds
        && (e == Again ==> n.queue == s.queue + [Waiter(op, reqs, false, Failed(Again))])
        && (e != Again ==> n.queue == s.queue)
    ensures forall k :: k / 2 != op ==> (k in n.holds <==> k in s.holds) && (k in s.holds ==> n.holds[k] == s.holds[k])
  {
    hide Core, QueueOk, BlockedBelow, DonesOk, TryAll, Try, ReqsOk, HoldsPaths;
    assert Tree(s.nodes) by { InvTree(s); }
    TryAnswers(s.nodes, s.holds, op, reqs, mem(0), mem(1));
  }

  lemma {:induction false} BeginPhase(s: State, op: nat, reqs: seq<Request>, mem: Memory, o: nat, phase: Phase)
    requires Inv(s) && Enabled(s, Begin(o, reqs, mem)) && PhaseOk(s, op, phase)
    ensures PhaseOk(Next(s, Begin(o, reqs, mem)), op, PhaseAfter(s, Begin(o, reqs, mem), op, phase))
  {
    hide Inv, TryAll, Try, ReqsOk, Begun;
    var n := Next(s, Begin(o, reqs, mem));
    BeginQueues(s, o, reqs, mem, n);
    assert (2 * op) / 2 == op && (2 * op + 1) / 2 == op;
    if o == op {
      if n.queue != s.queue {
        assert n.queue[|s.queue|].op == op && n.queue[|s.queue|].reqs == reqs;
      }
    } else {
      match phase
      case Active(rs) =>
        if InQueue(s.queue, op, rs) {
          var i :| 0 <= i < |s.queue| && s.queue[i].op == op && s.queue[i].reqs == rs;
          assert n.queue[i].op == op && n.queue[i].reqs == rs;
        } else {
          var grants :| HoldsPaths(s.holds, op, rs, grants);
          assert HoldsPaths(n.holds, op, rs, grants);
        }
      case _ =>
        forall i | 0 <= i < |n.queue| ensures n.queue[i].op != op {
          assert i < |s.queue| ==> n.queue[i] == s.queue[i] && s.queue[i].op != op;
        }
    }
  }

  lemma {:induction false} DequeuePhase(s: State, op: nat, o: nat, phase: Phase)
    requires Inv(s) && Enabled(s, Dequeue(o)) && PhaseOk(s, op, phase)
    ensures PhaseOk(Next(s, Dequeue(o)), op, PhaseAfter(s, Dequeue(o), op, phase))
  {
    hide Core, BlockedBelow, HoldsPaths, PhaseOk, DropAt, Remaining;
    var n := Next(s, Dequeue(o));
    var i :| 0 <= i < |s.queue| && s.queue[i].op == o && s.queue[i].done && n == s.(queue := DropAt(s.queue, i));
    assert Answered(s.holds, s.queue[i]);
    assert forall j :: 0 <= j < |s.queue| && j != i ==> s.queue[j].op != o;
    hide QueueOk, DonesOk;
    DroppedAt(s.queue, i);
    if o == op {
      assert AnswerFor(s.queue, op) == s.queue[i].err;
      TakenPhase(s, n, op, i, phase);
    } else {
      OtherPhase(s, n, op, i, phase);
    }
  }

  /** Where an element of the shorter queue was. */
  function Was(i: nat, j: nat): nat {
    if j < i then j else j + 1
  }

  /** The queue without the i-th element. */
  ghost predicate Remaining(queue: seq<Waiter>, i: nat, rest: seq<Waiter>) {
    && i < |queue| && |rest| == |queue| - 1
    && (forall j :: 0 <= j < |rest| ==> rest[j] == queue[Was(i, j)])
  }

  lemma {:induction false} DroppedAt(queue: seq<Waiter>, i: nat)
    requires i < |queue|
    ensures Remaining(queue, i, DropAt(queue, i))
  {
  }

  lemma {:induction false} TakenPhase(s: State, n: State, op: nat, i: nat, phase: Phase)
    requires PhaseOk(s, op, phase) && n.holds == s.holds
    requires 0 <= i < |s.queue| && s.queue[i].op == op && Answered(s.holds, s.queue[i])
    requires forall j :: 0 <= j < |s.queue| && j != i ==> s.queue[j].op != op
    requires Remaining(s.queue, i, n.queue)
    ensures PhaseOk(n, op, if s.queue[i].err.Failed? then Refused(s.queue[i].err.err) else phase)
  {
    hide HoldsPaths;
    forall j | 0 <= j < |n.queue| ensures n.queue[j].op != op {
      assert n.queue[j] == s.queue[Was(i, j)];
    }
    assert Queued(s, op);
  }

  lemma {:induction false} OtherPhase(s: State, n: State, op: nat, i: nat, phase: Phase)
    requires PhaseOk(s, op, phase) && n.holds == s.holds && i < |s.queue| && s.queue[i].op != op
    requires Remaining(s.queue, i, n.queue)
    ensures PhaseOk(n, op, phase)
  {
    hide HoldsPaths;
    forall j | 0 <= j < |n.queue| ensures n.queue[j] == s.queue[Was(i, j)] {
    }
    if phase.Active? && InQueue(s.queue, op, phase.reqs) {
      var j :| 0 <= j < |s.queue| && s.queue[j].op == op && s.queue[j].reqs == phase.reqs;
      var k := if j < i then j else j - 1;
      assert n.queue[k] == s.queue[Was(i, k)] && Was(i, k) == j;
    }
    if !phase.Active? {
      forall j | 0 <= j < |n.queue| ensures n.queue[j].op != op {
        assert s.queue[Was(i, j)].op != op;
      }
    }
  }

  lemma {:induction false} FinishPhase(s: State, op: nat, o: nat, mem: Memory, phase: Phase)
    requires Inv(s) && Enabled(s, Finish(o, mem)) && PhaseOk(s, op, phase)
    ensures PhaseOk(Next(s, Finish(o, mem)), op, PhaseAfter(s, Finish(o, mem), op, phase))
  {
    hide Core, QueueOk, BlockedBelow, DonesOk, LetGo, KeepsLinks;
    var l, n := LetGo(s, o), Next(s, Finish(o, mem));
    LetGoKeeps(s, o);
    LetGoAnswers(s, o);
    LetGoQueue(s, o);
    LetGoNobody(l);
    PassBlocks(l, 0, mem);
    PassAnswers(l, 0, mem);
    assert n == WakeFrom(l, 0, mem);
    assert (2 * op) / 2 == op && (2 * op + 1) / 2 == op && (2 * o) / 2 == o && (2 * o + 1) / 2 == o;
    PassedPhase(s, l, n, op, o, phase);
  }

  lemma {:induction false} PassedPhase(s: State, l: State, n: State, op: nat, o: nat, phase: Phase)
    requires PhaseOk(s, op, phase) && !Queued(s, o) && l.queue == s.queue && l.holds == s.holds - {2 * o, 2 * o + 1}
    requires |n.queue| == |s.queue|
    requires forall j :: 0 <= j < |s.queue| ==> n.queue[j].op == s.queue[j].op && n.queue[j].reqs == s.queue[j].reqs
    requires forall k :: k in l.holds ==> k in n.holds && n.holds[k] == l.holds[k]
    requires forall k :: k in n.holds && k !in l.holds ==> exists j :: 0 <= j < |s.queue| && s.queue[j].op == k / 2
    ensures PhaseOk(n, op, if o == op then Idle else phase)
  {
    assert (2 * op) / 2 == op && (2 * op + 1) / 2 == op;
    if o == op || !phase.Active? {
      assert !Queued(s, op);
      assert forall j :: 0 <= j < |n.queue| ==> n.queue[j].op == s.queue[j].op && s.queue[j].op != op;
    } else if InQueue(s.queue, op, phase.reqs) {
      var j :| 0 <= j < |s.queue| && s.queue[j].op == op && s.queue[j].reqs == phase.reqs;
      assert n.queue[j].op == op && n.queue[j].reqs == phase.reqs;
    } else {
      var grants :| HoldsPaths(s.holds, op, phase.reqs, grants);
      forall k | k / 2 == op ensures (k in n.holds <==> k in s.holds) && (k in s.holds ==> n.holds[k] == s.holds[k]) {
      }
      HoldsStay(s, n, op, phase.reqs, grants);
    }
  }

  lemma {:induction false} HoldsStay(s: State, n: State, op: nat, reqs: seq<Request>, grants: seq<Grant>)
    requires HoldsPaths(s.holds, op, reqs, grants)
    requires forall k :: k / 2 == op ==> (k in n.holds <==> k in s.holds) && (k in s.holds ==> n.holds[k] == s.holds[k])
    ensures HoldsPaths(n.holds, op, reqs, grants)
  {
    assert (2 * op) / 2 == op && (2 * op + 1) / 2 == op;
  }

  lemma {:induction false} StepPhase(s: State, step: Step, op: nat, phase: Phase)
    requires Inv(s) && Enabled(s, step) && PhaseOk(s, op, phase)
    ensures PhaseOk(Next(s, step), op, PhaseAfter(s, step, op, phase))
  {
    hide Inv, PhaseOk, Finished, Begun, DotDropped;
    match step
    case Begin(o, reqs, mem) => BeginPhase(s, op, reqs, mem, o, phase);
    case Finish(o, mem) => FinishPhase(s, op, o, mem, phase);
    case Dequeue(o) => DequeuePhase(s, op, o, phase);
    case _ =>
      OtherSteps(s, step);
      SamePhase(s, Next(s, step), op, phase);
  }

  lemma {:induction false} OtherSteps(s: State, step: Step)
    requires Inv(s) && Enabled(s, step) && !step.Begin? && !step.Finish? && !step.Dequeue?
    ensures Next(s, step).holds == s.holds && Next(s, step).queue == s.queue
  {
    hide Inv, Finished, Begun, Create, Forget, IncLookup, RenameNodes, ExchangeNodes, DetachAt, NodeAt;
  }

  lemma {:induction false} SamePhase(s: State, n: State, op: nat, phase: Phase)
    requires PhaseOk(s, op, phase) && n.holds == s.holds && n.queue == s.queue
    ensures PhaseOk(n, op, phase)
  {
  }

  /** The phase of an operation after a run. */
  ghost function PhaseOf(s: State, steps: seq<Step>, op: nat, phase: Phase): Phase
    requires Inv(s)
    decreases |steps|
  {
    if steps == [] || !Enabled(s, steps[0]) then phase
    else
      StepKeeps(s, steps[0]);
      PhaseOf(Next(s, steps[0]), steps[1..], op, PhaseAfter(s, steps[0], op, phase))
  }

  lemma {:induction false} RunPhase(s: State, steps: seq<Step>, r: State, op: nat, phase: Phase)
    requires Inv(s) && RunFrom(s, steps) == Some(r) && PhaseOk(s, op, phase)
    ensures PhaseOk(r, op, PhaseOf(s, steps, op, phase))
    decreases |steps|
  {
    hide Inv, Next, Enabled, PhaseAfter, PhaseOk;
    if steps != [] {
      StepKeeps(s, steps[0]);
      StepPhase(s, steps[0], op, phase);
      RunPhase(Next(s, steps[0]), steps[1..], r, op, PhaseAfter(s, steps[0], op, phase));
    }
  }

  /** Over every run no operation is lost: one that has begun, was not refused and has not finished holds exactly the
      paths it asked for or is in the queue with its request; any other holds nothing and waits nowhere. */
  lemma {:induction false} NoOperationLost(steps: seq<Step>, s: State, op: nat)
    requires Inv(Init()) && RunFrom(Init(), steps) == Some(s)
    ensures PhaseOk(s, op, PhaseOf(Init(), steps, op, Idle))
  {
    assert PhaseOk(Init(), op, Idle);
    hide Inv, PhaseOk;
    RunPhase(Init(), steps, s, op, Idle);
  }

  /** An element that is done tells its operation the truth: it holds its paths, or it was refused and does not. */
  lemma {:induction false} DoneIsAnswered(s: State, i: nat)
    requires Reachable(s) && i < |s.queue| && s.queue[i].done
    ensures match s.queue[i].err
      case Held(grants) => HoldsPaths(s.holds, s.queue[i].op, s.queue[i].reqs, grants)
      case Failed(e) => e != Again && 2 * s.queue[i].op !in s.holds && 2 * s.queue[i].op + 1 !in s.holds
  {
    hide Reachable, Core, QueueOk, BlockedBelow, HoldsPaths;
    ReachableInv(s);
    assert Answered(s.holds, s.queue[i]);
  }
}
