/** Runs that show what the theorems leave open: a rename that gets its locks, and a reader that overtakes a
    waiting rename. */
module LockWitnesses {
  import opened Prelude
  import opened NodeTree
  import opened TreeOps
  import opened TreeLocks
  import opened LockCore
  import opened LockProtocol
  import opened LockSteps
  import opened LockTheorems

  // ---------------------------------------------------------------- a run in which a rename happens

  const OLD := Link(ROOT, "a")
  const NEW := Link(ROOT, "b")
  const BOTH := [Request(ROOT, "a", true), Request(ROOT, "b", true)]

  /** One looked-up file below the root. */
  ghost function OneFile(): Nodes {
    map[ROOT := Node(None, 1, 2, 0, 0), 2 := Node(Some(OLD), 1, 1, 0, 0)]
  }

  lemma {:induction false} FileAppears()
    ensures Inv(Init()) && Enabled(Init(), LookupName(OLD, 2, 0))
    ensures Next(Init(), LookupName(OLD, 2, 0)) == State(OneFile(), map[], [], map[])
  {
    InitHolds();
    assert NodeAt(Init().nodes, OLD).None?;
    assert Create(Init().nodes, 2, OLD, 0) == OneFile();
  }

  /** A path to a free target directly below the root is granted. */
  lemma {:induction false} GrantedBelowRoot(nodes: Nodes, q: Request, w: Option<Id>)
    requires Tree(nodes) && q.base == ROOT && w == Target(nodes, q) && (w.Some? ==> nodes[w.value].treelock == 0)
    ensures TryGet(nodes, q, None) == (Locked(nodes, [], w), Granted([], w))
  {
    ChainUnique(nodes, ROOT, Chain(nodes, ROOT), [ROOT]);
    ChainEnds(nodes, ROOT, [ROOT]);
    assert Walk(nodes, [ROOT], 0, None) == (0, None);
    assert [ROOT][..0] == [];
  }

  /** Both paths are granted at once: the file is write-locked and both names are claimed. */
  lemma {:induction false} BothGranted()
    requires Tree(OneFile())
    ensures TryAll(OneFile(), BOTH, None, None) ==
            (Locked(OneFile(), [], Some(2)), Held([Grant([], Some(2)), Grant([], None)]))
  {
    hide TryGet, Chain, TopChain;
    var n, m := OneFile(), Locked(OneFile(), [], Some(2));
    NodeAtIs(n, OLD, 2);
    GrantedBelowRoot(n, BOTH[0], Some(2));
    TryGetKeeps(n, BOTH[0], None);
    assert NodeAt(m, NEW).None?;
    GrantedBelowRoot(m, BOTH[1], None);
    assert Locked(m, [], None) == m;
  }

  /** The state in which operation 0 holds both paths. */
  ghost function BothHeld(): State {
    var holds := map[0 := HoldOf(BOTH[0], [], Some(2)), 1 := HoldOf(BOTH[1], [], None)];
    State(Locked(OneFile(), [], Some(2)), holds, [], map[])
  }

  lemma {:induction false} BeginsBoth(s: State, mem: Memory)
    requires Tree(OneFile()) && s == State(OneFile(), map[], [], map[]) && mem(0) == None && mem(1) == None
    ensures ReqsOk(s.nodes, BOTH) && Begun(s, 0, BOTH, mem) == BothHeld()
  {
    hide Tree, Locked, TryAll;
    BothGranted();
    NodeAtIs(s.nodes, OLD, 2);
    assert NodeAt(s.nodes, NEW).None?;
  }

  lemma {:induction false} BothClaimed()
    ensures Enabled(BothHeld(), Rename(0, OLD, NEW, false, true)) && NodeAt(BothHeld().nodes, OLD) == Some(2)
  {
    var s := BothHeld();
    NodeAtIs(s.nodes, OLD, 2);
    assert s.holds[0].claim == Some(OLD) && s.holds[1].claim == Some(NEW);
    assert Claims(s.holds, 0, OLD) && Claims(s.holds, 0, NEW);
  }

  /** The rename step is not idle: in this run it is enabled and has a node to move. */
  lemma {:induction false} RenameHappens(mem: Memory)
    requires mem(0) == None && mem(1) == None
    ensures Reachable(BothHeld())
    ensures Enabled(BothHeld(), Rename(0, OLD, NEW, false, true)) && NodeAt(BothHeld().nodes, OLD) == Some(2)
  {
    hide Core, QueueOk, BlockedBelow, Create, OneFile, BothHeld, Locked, Begun, Reachable;
    BothClaimed();
    FileReached();
    var s1 := State(OneFile(), map[], [], map[]);
    ReachableInv(s1);
    CoreTree(s1.nodes, s1.holds, s1.dots);
    BeginsBoth(s1, mem);
    assert Enabled(s1, Begin(0, BOTH, mem)) && Next(s1, Begin(0, BOTH, mem)) == BothHeld();
    ReachNext(s1, Begin(0, BOTH, mem));
  }

  lemma {:induction false} FileReached()
    ensures Reachable(State(OneFile(), map[], [], map[]))
  {
    hide Inv, Next, Enabled, Create, OneFile;
    FileAppears();
    assert RunFrom(Init(), []) == Some(Init());
    ReachNext(Init(), LookupName(OLD, 2, 0));
  }

  // ---------------------------------------------------------------- a reader that joins a two-path waiter

  const READ_OLD := Request(2, "x", false)

  /** Two files, the first with a lock word. */
  ghost function TwoFiles(lock: int): Nodes {
    map[ROOT := Node(None, 1, 3, 0, 0), 2 := Node(Some(OLD), 1, 1, lock, 0), 3 := Node(Some(NEW), 1, 1, 0, 0)]
  }

  ghost function OldHeld(): Holds {
    map[0 := HoldOf(READ_OLD, [2], None)]
  }

  /** Operation 0 reads the first file, and a rename of it to the second waits. */
  ghost function RenameWaits(): State {
    State(TwoFiles(TREELOCK_WAIT_OFFSET + 1), OldHeld(), [Waiter(1, BOTH, false, Failed(Again))], map[])
  }

  lemma {:induction false} SecondAppears()
    ensures Reachable(State(TwoFiles(0), map[], [], map[]))
  {
    hide Inv, Reachable, QueueOk, BlockedBelow, Core;
    FileReached();
    var s := State(OneFile(), map[], [], map[]);
    ReachableInv(s);
    assert NodeAt(s.nodes, NEW).None?;
    assert Create(s.nodes, 3, NEW, 0) == TwoFiles(0);
    assert Next(s, LookupName(NEW, 3, 0)) == State(TwoFiles(0), map[], [], map[]);
    ReachNext(s, LookupName(NEW, 3, 0));
  }

  lemma {:induction false} NamesOfTwo(lock: int)
    ensures NodeAt(TwoFiles(lock), OLD) == Some(2) && NodeAt(TwoFiles(lock), NEW) == Some(3)
  {
    NodeAtIs(TwoFiles(lock), OLD, 2);
    NodeAtIs(TwoFiles(lock), NEW, 3);
  }

  lemma {:induction false} FirstReads(mem: Memory)
    requires mem(0) == None
    ensures Reachable(State(TwoFiles(1), OldHeld(), [], map[]))
  {
    hide Inv, Reachable, QueueOk, BlockedBelow, Core, Chain, TopChain, Tree, TryGet;
    SecondAppears();
    var s := State(TwoFiles(0), map[], [], map[]);
    InvTree(s);
    ReadGranted(s.nodes);
    assert Locked(s.nodes, [2], None) == TwoFiles(1);
    var step := Begin(0, [READ_OLD], mem);
    assert Next(s, step) == State(TwoFiles(1), OldHeld(), [], map[]);
    ReachNext(s, step);
  }

  lemma {:induction false} ReadGranted(nodes: Nodes)
    requires nodes == TwoFiles(0) && Tree(nodes)
    ensures TryGet(nodes, READ_OLD, None) == (Locked(nodes, [2], None), Granted([2], None))
  {
    assert TopChain(nodes, 2, [2, ROOT]) by { assert [2, ROOT][1..] == [ROOT]; }
    ChainUnique(nodes, 2, Chain(nodes, 2), [2, ROOT]);
    ChainEnds(nodes, 2, [2, ROOT]);
    assert Walk(nodes, [2, ROOT], 1, None) == (1, None);
    assert Walk(nodes, [2, ROOT], 0, None) == (1, None);
    assert [2, ROOT][..1] == [2];
  }

  lemma {:induction false} InvTree(s: State)
    requires Reachable(s)
    ensures Inv(s) && Tree(s.nodes)
  {
    ReachableInv(s);
  }

  lemma {:induction false} RenameQueues(mem: Memory)
    requires mem(0) == None
    ensures Reachable(RenameWaits())
  {
    hide Inv, Reachable, QueueOk, BlockedBelow, Core, Chain, TopChain, Tree;
    FirstReads(mem);
    NamesOfTwo(1);
    var s := State(TwoFiles(1), OldHeld(), [], map[]);
    InvTree(s);
    var step := Begin(1, BOTH, mem);
    assert Next(s, step) == RenameWaits();
    ReachNext(s, step);
  }

  /** A waiting two-path request need not close both its nodes: a run in which a rename waits for a reader of its
      first node, nobody claims either name, and the node at its second name is open to all. */
  lemma {:induction false} ReaderJoinsTwoPathWaiter(mem: Memory)
    requires mem(0) == None
    ensures Reachable(RenameWaits()) && Waiting(RenameWaits().queue, 0) && RenameWaits().queue[0].reqs == BOTH
    ensures forall k :: k in RenameWaits().holds ==> RenameWaits().holds[k].claim.None?
    ensures Last(RenameWaits().nodes, BOTH[0]) == 2 && Last(RenameWaits().nodes, BOTH[1]) == 3
    ensures Tree(RenameWaits().nodes) && Closed(RenameWaits().nodes, 2) && !Closed(RenameWaits().nodes, 3)
  {
    hide Reachable, Inv, Tree, Chain, TopChain, Closed;
    RenameQueues(mem);
    InvTree(RenameWaits());
    NamesOfTwo(TREELOCK_WAIT_OFFSET + 1);
    OneClosed();
  }

  lemma {:induction false} OneClosed()
    requires Tree(RenameWaits().nodes)
    ensures Closed(RenameWaits().nodes, 2) && !Closed(RenameWaits().nodes, 3)
  {
    hide Closed;
    var nodes := RenameWaits().nodes;
    assert TopChain(nodes, 2, [2, ROOT]) by { assert [2, ROOT][1..] == [ROOT]; }
    assert TopChain(nodes, 3, [3, ROOT]) by { assert [3, ROOT][1..] == [ROOT]; }
    ChainUnique(nodes, 2, Chain(nodes, 2), [2, ROOT]);
    ChainUnique(nodes, 3, Chain(nodes, 3), [3, ROOT]);
    assert 2 in Chain(nodes, 2);
    ClosedExactly(nodes, 2);
    ClosedExactly(nodes, 3);
  }
}
