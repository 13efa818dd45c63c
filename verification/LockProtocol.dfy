/** The high-level API under concurrency: every critical section under `f->lock` is one atomic
    step. Operations lock and unlock paths, wait in the lock queue, rename, unlink, look up and
    forget, in any interleaving. */
module LockProtocol {
  import opened Prelude
  import opened NodeTree
  import opened TreeLocks
  import opened LockCore

  /** `struct lock_queue_element` of an operation that asked for one path or two. */
  datatype Waiter = Waiter(op: nat, reqs: seq<Request>, done: bool, err: Result)

  datatype State = State(nodes: Nodes, holds: Holds, queue: seq<Waiter>, dots: Dots)

  /** Which positions of a walk run out of memory; one value per attempt. */
  type Memory = nat -> Option<nat>

  datatype Step =
    | Begin(op: nat, reqs: seq<Request>, mem: Memory)         // get_path_common, get_path2
    | Finish(op: nat, mem: Memory)                             // free_path_wrlock, free_path2
    | Dequeue(op: nat)                                         // the end of wait_path
    | LookupName(link: Link, newId: Id, generation: nat)       // find_node with a name
    | LookupNode(node: Id)                                     // find_node without a name
    | ForgetNode(node: Id, count: nat)                         // forget_node, once it may proceed
    | TakeDot(node: Id, token: nat)                            // fuse_lib_lookup of "."
    | DropDot(token: nat)
    | Remove(op: nat, link: Link)                              // remove_node
    | Rename(op: nat, from: Link, to: Link, hiding: bool, copied: bool)  // rename_node
    | Exchange(op: nat, from: Link, to: Link, copied: bool, copied2: bool)  // exchange_node

  // ---------------------------------------------------------------- the wake-up pass

  ghost predicate Waiting(queue: seq<Waiter>, i: int) {
    0 <= i < |queue| && !queue[i].done
  }

  /** A waiting element: a request the kernel may still make, by an operation that holds nothing. */
  ghost predicate WaiterOk(nodes: Nodes, holds: Holds, w: Waiter) {
    FreeOp(holds, w.op) && ReqsOk(nodes, w.reqs)
  }

  ghost predicate QueueOk(nodes: Nodes, holds: Holds, queue: seq<Waiter>) {
    && (forall i :: Waiting(queue, i) ==> WaiterOk(nodes, holds, queue[i]))
    && (forall i, j :: 0 <= i < j < |queue| ==> queue[i].op != queue[j].op)
  }

  /** Every waiting element before position `n` is hindered. */
  ghost predicate BlockedBelow(nodes: Nodes, queue: seq<Waiter>, n: nat)
    requires Acyclic(nodes)
  {
    forall i :: i < n && Waiting(queue, i) ==> Hindered(nodes, queue[i].reqs)
  }

  /** `queue_element_wakeup` for the element at `i`. An element that is done is not locked again. */
  ghost function WakeOne(s: State, i: nat, mem: Memory): (r: State)
    requires Tree(s.nodes) && i < |s.queue| && (Waiting(s.queue, i) ==> ReqsOk(s.nodes, s.queue[i].reqs))
  {
    var w := s.queue[i];
    if w.done then s
    else
      var a := Try(s.nodes, s.holds, w.op, w.reqs, mem(2 * i), mem(2 * i + 1));
      if a.result == Failed(Again) then s.(nodes := a.nodes)
      else s.(nodes := a.nodes, holds := a.holds, queue := s.queue[i := w.(done := true, err := a.result)])
  }

  /** What one wake-up keeps, and what it adds. */
  ghost predicate Woken(s: State, r: State, i: nat) {
    && Core(r.nodes, r.holds, r.dots) && QueueOk(r.nodes, r.holds, r.queue)
    && KeepsLinks(s.nodes, r.nodes) && StaysHeld(s.nodes, r.nodes)
    && |r.queue| == |s.queue| && r.dots == s.dots
    && (forall j :: 0 <= j < |s.queue| && (s.queue[j].done || j != i) ==> r.queue[j] == s.queue[j])
    && (forall k :: k in s.holds ==> k in r.holds && r.holds[k] == s.holds[k])
  }

  lemma {:induction false} OthersStillOk(nodes: Nodes, holds: Holds, a: Attempt, op: nat, qs: seq<Request>, w: Waiter)
    requires Tree(nodes) && WaiterOk(nodes, holds, w) && w.op != op && KeepsLinks(nodes, a.nodes)
    requires a.holds == holds || (a.result.Held? && 1 <= |a.result.grants| <= 2 && |qs| == |a.result.grants| &&
                                  a.holds == AddHolds(holds, op, qs, a.result.grants))
    ensures WaiterOk(a.nodes, a.holds, w)
  {
    forall q | q in w.reqs ensures ReqOk(a.nodes, q) {
      ReqKept(nodes, a.nodes, q);
    }
  }

  lemma {:induction false} WakeOneKeeps(s: State, i: nat, mem: Memory)
    requires Core(s.nodes, s.holds, s.dots) && QueueOk(s.nodes, s.holds, s.queue) && i < |s.queue|
    ensures Woken(s, WakeOne(s, i, mem), i)
  {
    hide Core, Encoded, RefOk, HoldsOk, ClaimsOk, Chain, TopChain, Try, KeepsLinks, StaysHeld, ReqsOk;
    CoreTree(s.nodes, s.holds, s.dots);
    var w, r := s.queue[i], WakeOne(s, i, mem);
    if w.done {
      KeepsSelf(s.nodes);
    } else {
      assert Waiting(s.queue, i);
      var a := Try(s.nodes, s.holds, w.op, w.reqs, mem(2 * i), mem(2 * i + 1));
      TryCore(s.nodes, s.holds, s.dots, w.op, w.reqs, mem(2 * i), mem(2 * i + 1));
      TryHolds(s.nodes, s.holds, w.op, w.reqs, mem(2 * i), mem(2 * i + 1));
      forall j | Waiting(r.queue, j) ensures WaiterOk(r.nodes, r.holds, r.queue[j]) {
        assert Waiting(s.queue, j);
        if j == i {
          ReqsKept(s.nodes, a.nodes, w.reqs);
        } else {
          OthersStillOk(s.nodes, s.holds, a, w.op, w.reqs, s.queue[j]);
        }
      }
    }
  }

  lemma {:induction false} KeepsSelf(nodes: Nodes)
    ensures KeepsLinks(nodes, nodes) && StaysHeld(nodes, nodes)
  {
  }

  lemma {:induction false} CoreTree(nodes: Nodes, holds: Holds, dots: Dots)
    requires Core(nodes, holds, dots)
    ensures Tree(nodes) && Encoded(nodes, holds) && InRange(holds)
  {
  }

  lemma {:induction false} WakeReady(s: State, i: nat)
    requires QueueOk(s.nodes, s.holds, s.queue)
    ensures Waiting(s.queue, i) ==> ReqsOk(s.nodes, s.queue[i].reqs)
  {
  }

  lemma {:induction false} ReqsKept(a: Nodes, b: Nodes, qs: seq<Request>)
    requires Tree(a) && KeepsLinks(a, b) && ReqsOk(a, qs)
    ensures ReqsOk(b, qs)
  {
    forall q | q in qs ensures ReqOk(b, q) { ReqKept(a, b, q); }
  }

  /** A try adds holds of its own operation or none, and never replaces one. */
  lemma {:induction false} TryHolds(
      nodes: Nodes, holds: Holds, op: nat, qs: seq<Request>, oom: Option<nat>, oom2: Option<nat>)
    requires Tree(nodes) && ReqsOk(nodes, qs) && FreeOp(holds, op)
    ensures var a := Try(nodes, holds, op, qs, oom, oom2);
      && (a.result.Failed? ==> a.holds == holds)
      && (a.result.Held? ==> 1 <= |a.result.grants| <= 2 && |qs| == |a.result.grants|)
      && (a.result.Held? ==> a.holds == AddHolds(holds, op, qs, a.result.grants))
      && (forall k :: k in holds ==> k in a.holds && a.holds[k] == holds[k])
  {
  }

  /** Blocked elements stay blocked, and the element just tried is now done or blocked. */
  lemma {:induction false} WakeOneBlocks(s: State, i: nat, mem: Memory)
    requires Core(s.nodes, s.holds, s.dots) && QueueOk(s.nodes, s.holds, s.queue) && i < |s.queue|
    requires BlockedBelow(s.nodes, s.queue, i)
    ensures Tree(WakeOne(s, i, mem).nodes) && BlockedBelow(WakeOne(s, i, mem).nodes, WakeOne(s, i, mem).queue, i + 1)
  {
    hide Encoded, RefOk, HoldsOk, ClaimsOk, Chain, TopChain, TryAll, KeepsLinks, StaysHeld, Hindered, ReqsOk;
    var w, r := s.queue[i], WakeOne(s, i, mem);
    WakeOneKeeps(s, i, mem);
    forall j | j < i + 1 && Waiting(r.queue, j) ensures Hindered(r.nodes, r.queue[j].reqs) {
      if j == i {
        assert Waiting(s.queue, i);
        EncodedSmall(s.nodes, s.holds);
        AgainHindered(s.nodes, w.reqs, mem(2 * i), mem(2 * i + 1));
      } else {
        assert Waiting(s.queue, j);
        HinderedKept(s.nodes, r.nodes, s.queue[j].reqs);
      }
    }
  }

  /** `wake_up_queued` from position `i` on. */
  ghost function WakeFrom(s: State, i: nat, mem: Memory): (r: State)
    requires Core(s.nodes, s.holds, s.dots) && QueueOk(s.nodes, s.holds, s.queue)
    decreases |s.queue| - i
  {
    if i >= |s.queue| then s
    else
      WakeOneKeeps(s, i, mem);
      WakeFrom(WakeOne(s, i, mem), i + 1, mem)
  }

  /** After a whole pass every waiting element is hindered; done
      elements and existing holds are as they were. */
  lemma {:induction false} PassBlocks(s: State, i: nat, mem: Memory)
    requires Core(s.nodes, s.holds, s.dots) && QueueOk(s.nodes, s.holds, s.queue) && i <= |s.queue|
    requires BlockedBelow(s.nodes, s.queue, i)
    ensures var r := WakeFrom(s, i, mem);
      && Core(r.nodes, r.holds, r.dots) && QueueOk(r.nodes, r.holds, r.queue) && |r.queue| == |s.queue|
      && BlockedBelow(r.nodes, r.queue, |r.queue|)
      && KeepsLinks(s.nodes, r.nodes) && r.dots == s.dots
      && (forall j :: 0 <= j < |s.queue| && s.queue[j].done ==> r.queue[j] == s.queue[j])
      && (forall k :: k in s.holds ==> k in r.holds && r.holds[k] == s.holds[k])
    decreases |s.queue| - i
  {
    hide Encoded, RefOk, HoldsOk, ClaimsOk, Chain, TopChain, Try, KeepsLinks, StaysHeld, Hindered, BlockedBelow;
    hide QueueOk, WakeOne;
    if i < |s.queue| {
      WakeOneKeeps(s, i, mem);
      WakeOneBlocks(s, i, mem);
      WakeReady(s, i);
      var s1 := WakeOne(s, i, mem);
      PassBlocks(s1, i + 1, mem);
      KeepsTrans(s.nodes, s1.nodes, WakeFrom(s1, i + 1, mem).nodes);
    } else {
      KeepsSelf(s.nodes);
      assert BlockedBelow(s.nodes, s.queue, |s.queue|);
    }
  }

  // ---------------------------------------------------------------- answers

  /** The operation holds exactly the paths it asked for, as they were granted. */
  ghost predicate HoldsPaths(holds: Holds, op: nat, reqs: seq<Request>, grants: seq<Grant>) {
    && 1 <= |reqs| <= 2 && |grants| == |reqs|
    && 2 * op in holds && holds[2 * op] == HoldOf(reqs[0], grants[0].chain, grants[0].wnode)
    && (2 * op + 1 in holds <==> |reqs| == 2)
    && (|reqs| == 2 ==> holds[2 * op + 1] == HoldOf(reqs[1], grants[1].chain, grants[1].wnode))
  }

  /** What a done element tells its operation: that it holds its paths, or why it does not. */
  ghost predicate Answered(holds: Holds, w: Waiter) {
    match w.err
    case Held(grants) => HoldsPaths(holds, w.op, w.reqs, grants)
    case Failed(e) => e != Again && 2 * w.op !in holds && 2 * w.op + 1 !in holds
  }

  ghost predicate DonesOk(holds: Holds, queue: seq<Waiter>) {
    forall i :: 0 <= i < |queue| && queue[i].done ==> Answered(holds, queue[i])
  }

  /** The holds of other operations do not matter to an answer. */
  lemma {:induction false} AnswerFrame(a: Holds, b: Holds, w: Waiter)
    requires Answered(a, w)
    requires forall k :: k / 2 == w.op ==> (k in a <==> k in b) && (k in a ==> a[k] == b[k])
    ensures Answered(b, w)
  {
    assert (2 * w.op) / 2 == w.op && (2 * w.op + 1) / 2 == w.op;
  }

  /** A try adds holds under its own operation's keys only, and if it succeeds they are the paths asked for. */
  lemma {:induction false} TryAnswers(
      nodes: Nodes, holds: Holds, op: nat, qs: seq<Request>, oom: Option<nat>, oom2: Option<nat>)
    requires Tree(nodes) && ReqsOk(nodes, qs) && FreeOp(holds, op)
    ensures var a := Try(nodes, holds, op, qs, oom, oom2);
      && a.result == TryAll(nodes, qs, oom, oom2).1
      && (a.result.Held? ==> HoldsPaths(a.holds, op, qs, a.result.grants))
      && (a.result.Failed? ==> a.holds == holds)
      && (forall k :: k / 2 != op ==> (k in a.holds <==> k in holds) && (k in holds ==> a.holds[k] == holds[k]))
  {
    hide TryGet, Chain, TopChain;
    assert (2 * op) / 2 == op && (2 * op + 1) / 2 == op;
    TryHolds(nodes, holds, op, qs, oom, oom2);
  }

  /** A wake-up stores the outcome of its attempt, unless that is to wait on, and touches nothing of the other
      operations. */
  lemma {:induction false} WakeOneAnswers(s: State, i: nat, mem: Memory)
    requires Tree(s.nodes) && QueueOk(s.nodes, s.holds, s.queue) && DonesOk(s.holds, s.queue) && i < |s.queue|
    ensures Waiting(s.queue, i) ==> ReqsOk(s.nodes, s.queue[i].reqs)
    ensures var r := WakeOne(s, i, mem);
      && DonesOk(r.holds, r.queue) && |r.queue| == |s.queue|
      && (forall j :: 0 <= j < |s.queue| && j != i ==> r.queue[j] == s.queue[j])
      && (s.queue[i].done ==> r == s)
      && (forall k :: k / 2 != s.queue[i].op ==>
           (k in r.holds <==> k in s.holds) && (k in s.holds ==> r.holds[k] == s.holds[k]))
    ensures !s.queue[i].done ==>
      var w := s.queue[i];
      var result := TryAll(s.nodes, w.reqs, mem(2 * i), mem(2 * i + 1)).1;
      WakeOne(s, i, mem).queue[i] == if result == Failed(Again) then w else w.(done := true, err := result)
  {
    hide Try, TryAll, ReqsOk, HoldsPaths, Tree;
    var w, r := s.queue[i], WakeOne(s, i, mem);
    if !w.done {
      assert Waiting(s.queue, i) && WaiterOk(s.nodes, s.holds, w);
      TryAnswers(s.nodes, s.holds, w.op, w.reqs, mem(2 * i), mem(2 * i + 1));
      forall j | 0 <= j < |r.queue| && r.queue[j].done ensures Answered(r.holds, r.queue[j]) {
        if j != i {
          assert Answered(s.holds, s.queue[j]) && s.queue[j].op != w.op;
          AnswerFrame(s.holds, r.holds, s.queue[j]);
        }
      }
    }
  }

  /** A whole pass: every element keeps its operation and request, done elements are answered, and holds appear
      only for operations in the queue. */
  lemma {:induction false} PassAnswers(s: State, i: nat, mem: Memory)
    requires Core(s.nodes, s.holds, s.dots) && QueueOk(s.nodes, s.holds, s.queue) && DonesOk(s.holds, s.queue)
    requires i <= |s.queue|
    ensures var r := WakeFrom(s, i, mem);
      && DonesOk(r.holds, r.queue) && |r.queue| == |s.queue|
      && (forall j :: 0 <= j < |s.queue| ==> r.queue[j].op == s.queue[j].op && r.queue[j].reqs == s.queue[j].reqs)
      && (forall k :: k in r.holds && k !in s.holds ==> exists j :: 0 <= j < |s.queue| && s.queue[j].op == k / 2)
    decreases |s.queue| - i
  {
    hide Core, QueueOk, DonesOk, WakeOne, TryAll;
    if i < |s.queue| {
      CoreTree(s.nodes, s.holds, s.dots);
      WakeReady(s, i);
      WakeOneKeeps(s, i, mem);
      WakeOneAnswers(s, i, mem);
      var s1 := WakeOne(s, i, mem);
      PassAnswers(s1, i + 1, mem);
      var r := WakeFrom(s1, i + 1, mem);
      forall k | k in r.holds && k !in s.holds ensures exists j :: 0 <= j < |s.queue| && s.queue[j].op == k / 2 {
        if k in s1.holds {
          assert s.queue[i].op == k / 2;
        } else {
          var j :| 0 <= j < |s1.queue| && s1.queue[j].op == k / 2;
          assert s.queue[j].op == k / 2;
        }
      }
    }
  }
}
