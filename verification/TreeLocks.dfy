/** Path locks: one signed word per node, taken along the parent chain and rolled back on failure. */
module TreeLocks {
  import opened Prelude
  import opened NodeTree

  const TREELOCK_WRITE: int := -1
  const TREELOCK_WAIT_OFFSET: int := INT_MIN

  /** Operations in progress. Each takes at most two path locks, so a node has at most
      `2 * MAX_OPS < INT_MAX` readers. */
  const MAX_OPS: nat := 0x3fff_ffff

  /** A path to lock: up from `base` for reading and, if `write`, the node bound at (base, name)
      for writing. */
  datatype Request = Request(base: Id, name: Name, write: bool)

  datatype Outcome = Granted(chain: seq<Id>, wnode: Option<Id>) | Again | Stale | NoMemory

  ghost function Target(nodes: Nodes, q: Request): Option<Id> {
    if q.write then NodeAt(nodes, Link(q.base, q.name)) else None
  }

  // ---------------------------------------------------------------- the lock word

  /** What the word of a node says about its holders: 0 is free, r is r readers, -1 is one writer,
      INT_MIN + r is r readers with a writer waiting. */
  predicate LockWord(t: int, readers: nat, writers: nat) {
    if writers > 0 then writers == 1 && readers == 0 && t == TREELOCK_WRITE
    else t == readers || (readers >= 1 && t == TREELOCK_WAIT_OFFSET + readers)
  }

  /** The word after one reader has left. */
  function Dropped(t: int): int {
    if t - 1 == TREELOCK_WAIT_OFFSET then 0 else t - 1
  }

  function Marked(t: int): int {
    if t > 0 then t + TREELOCK_WAIT_OFFSET else t
  }

  function SetLock(nodes: Nodes, n: Id, t: int): Nodes
    requires n in nodes
  {
    nodes[n := nodes[n].(treelock := t)]
  }

  /** The nodes once a path is locked: one more reader along `chain`, `wnode` written. */
  function Locked(nodes: Nodes, chain: seq<Id>, wnode: Option<Id>): Nodes {
    map n | n in nodes ::
      if wnode == Some(n) then nodes[n].(treelock := TREELOCK_WRITE)
      else if n in chain then nodes[n].(treelock := nodes[n].treelock + 1)
      else nodes[n]
  }

  /** The nodes once a path is unlocked. */
  function Released(nodes: Nodes, chain: seq<Id>, wnode: Option<Id>): Nodes {
    map n | n in nodes ::
      if wnode == Some(n) then nodes[n].(treelock := 0)
      else if n in chain then nodes[n].(treelock := Dropped(nodes[n].treelock))
      else nodes[n]
  }

  // ---------------------------------------------------------------- taking one path

  /** How far the walk up the chain `c` gets from position `i`, and why it stops there. `oom` says
      where memory runs out, if it does: 0 for the buffer or the last name, before anything is looked at;
      i + 1 for the name of the node at position `i`. */
  ghost function Walk(nodes: Nodes, c: seq<Id>, i: nat, oom: Option<nat>): (r: (nat, Option<Outcome>))
    requires i < |c| && (forall x :: x in c ==> x in nodes)
    requires nodes[c[|c| - 1]].link.None?
    ensures i <= r.0 < |c|
    decreases |c| - i
  {
    if c[i] == ROOT then (i, None)
    else if nodes[c[i]].link.None? then (i, Some(Stale))
    else if oom == Some(i + 1) then (i, Some(NoMemory))
    else if nodes[c[i]].treelock < 0 then (i, Some(Again))
    else
      assert i < |c| - 1;
      Walk(nodes, c, i + 1, oom)
  }

  lemma ChainEnds(nodes: Nodes, id: Id, c: seq<Id>)
    requires TopChain(nodes, id, c)
    ensures (forall x :: x in c ==> x in nodes) && nodes[c[|c| - 1]].link.None?
  {
    ChainMembers(nodes, id, c);
    ChainNext(nodes, id, c, |c| - 1);
  }

  /** `try_get_path` with `need_lock`: all of the path, or nothing but possibly the mark of a
      waiting writer. */
  ghost function TryGet(nodes: Nodes, q: Request, oom: Option<nat>): (r: (Nodes, Outcome))
    requires Tree(nodes) && q.base in nodes
  {
    var w := Target(nodes, q);
    if oom == Some(0) then (nodes, NoMemory)
    else if w.Some? && nodes[w.value].treelock != 0 then
      (SetLock(nodes, w.value, Marked(nodes[w.value].treelock)), Again)
    else
      var c := Chain(nodes, q.base);
      ChainEnds(nodes, q.base, c);
      var (stop, err) := Walk(nodes, c, 0, oom);
      match err
      case None => (Locked(nodes, c[..stop], w), Granted(c[..stop], w))
      case Some(e) => (nodes, e)
  }

  /** Why the walk stops: at the root with every node below it free of writers, at a node that is
      written or awaited, at a node without a name, or for want of memory. */
  lemma {:induction false} WalkOutcome(nodes: Nodes, id: Id, c: seq<Id>, i: nat, oom: Option<nat>)
    requires Tree(nodes) && TopChain(nodes, id, c) && i < |c|
    requires forall j :: 0 <= j < i ==> c[j] in nodes && c[j] != ROOT && nodes[c[j]].treelock >= 0
    ensures (ChainEnds(nodes, id, c); var (stop, err) := Walk(nodes, c, i, oom);
      && (err.None? ==> stop == |c| - 1 && c[stop] == ROOT)
      && (err.None? ==> forall j :: 0 <= j < stop ==> c[j] != ROOT && nodes[c[j]].treelock >= 0)
      && (err.Some? ==> c[stop] != ROOT && !err.value.Granted?)
      && (err == Some(Again) ==> nodes[c[stop]].treelock < 0)
      && (err == Some(Stale) ==> stop == |c| - 1)
      && (err == Some(NoMemory) ==> oom == Some(stop + 1)))
    decreases |c| - i
  {
    ChainEnds(nodes, id, c);
    ChainNext(nodes, id, c, i);
    if c[i] != ROOT && nodes[c[i]].link.Some? && oom != Some(i + 1) && nodes[c[i]].treelock >= 0 {
      WalkOutcome(nodes, id, c, i + 1, oom);
    }
  }

  /** What a granted path is: the chain of the base without the root, free of writers, and a free
      target. */
  lemma {:induction false} TryGetGranted(nodes: Nodes, q: Request, oom: Option<nat>)
    requires Tree(nodes) && q.base in nodes && TryGet(nodes, q, oom).1.Granted?
    ensures var (r, o) := TryGet(nodes, q, oom);
      && r == Locked(nodes, o.chain, o.wnode) && o.wnode == Target(nodes, q)
      && Chain(nodes, q.base) == o.chain + [ROOT]
      && (forall n :: n in o.chain ==> n in nodes && n != ROOT && nodes[n].treelock >= 0)
      && (o.wnode.Some? ==> o.wnode.value in nodes && nodes[o.wnode.value].treelock == 0 && o.wnode.value !in o.chain)
  {
    var c := Chain(nodes, q.base);
    ChainEnds(nodes, q.base, c);
    WalkOutcome(nodes, q.base, c, 0, oom);
    var (stop, err) := Walk(nodes, c, 0, oom);
    assert c == c[..stop] + [ROOT];
    var w := Target(nodes, q);
    if w.Some? { TargetOffChain(nodes, q.base, w.value); }
  }

  /** A child of the base is not on the base's chain. */
  lemma {:induction false} TargetOffChain(nodes: Nodes, base: Id, w: Id)
    requires Tree(nodes) && base in nodes && w in nodes && IsParent(nodes, base, w)
    ensures w !in Chain(nodes, base)
  {
    ParentLive(nodes, w);
    ChainDistinct(nodes, w, Chain(nodes, w));
    forall i | 0 <= i < |Chain(nodes, base)| ensures Chain(nodes, base)[i] != w {
      assert Chain(nodes, w)[i + 1] == Chain(nodes, base)[i];
    }
  }

  /** The locks have changed by nothing but marks of waiting writers on nodes that have readers. */
  ghost predicate OnlyMarks(a: Nodes, b: Nodes) {
    && a.Keys == b.Keys
    && forall n :: n in a ==>
         b[n] == a[n].(treelock := b[n].treelock) &&
             (b[n].treelock == a[n].treelock || b[n].treelock == Marked(a[n].treelock))
  }

  /** A failed attempt leaves no hold behind. */
  lemma {:induction false} TryGetFailed(nodes: Nodes, q: Request, oom: Option<nat>)
    requires Tree(nodes) && q.base in nodes && !TryGet(nodes, q, oom).1.Granted?
    ensures OnlyMarks(nodes, TryGet(nodes, q, oom).0)
  {
  }

  // ---------------------------------------------------------------- taking two paths

  datatype Grant = Grant(chain: seq<Id>, wnode: Option<Id>)

  datatype Result = Held(grants: seq<Grant>) | Failed(err: Outcome)

  ghost predicate KeepsLinks(a: Nodes, b: Nodes) {
    a.Keys == b.Keys && forall n :: n in a ==> b[n] == a[n].(treelock := b[n].treelock)
  }

  lemma {:induction false} KeepsTree(a: Nodes, b: Nodes)
    requires Tree(a) && KeepsLinks(a, b)
    ensures Tree(b) && SameChains(a, b)
    ensures forall l :: NodeAt(a, l) == NodeAt(b, l)
  {
    TreeFrame(a, b);
    forall l ensures NodeAt(a, l) == NodeAt(b, l) {
      if NodeAt(a, l).Some? {
        assert Bound(b, l, NodeAt(a, l).value);
      }
      if NodeAt(b, l).Some? {
        assert Bound(a, l, NodeAt(b, l).value);
      }
    }
  }

  lemma {:induction false} TryGetKeeps(nodes: Nodes, q: Request, oom: Option<nat>)
    requires Tree(nodes) && q.base in nodes
    ensures KeepsLinks(nodes, TryGet(nodes, q, oom).0)
    ensures Tree(TryGet(nodes, q, oom).0)
  {
    if TryGet(nodes, q, oom).1.Granted? {
      TryGetGranted(nodes, q, oom);
    } else {
      TryGetFailed(nodes, q, oom);
    }
    KeepsTree(nodes, TryGet(nodes, q, oom).0);
  }

  /** `try_get_path` for one request, `try_get_path2` for two: the second path is tried with the
      first one held, and the first is given back if the second fails. */
  ghost function TryAll(nodes: Nodes, qs: seq<Request>, oom: Option<nat>, oom2: Option<nat>): (Nodes, Result)
    requires Tree(nodes) && 1 <= |qs| <= 2 && (forall q :: q in qs ==> q.base in nodes)
  {
    var (n1, o1) := TryGet(nodes, qs[0], oom);
    if !o1.Granted? then (n1, Failed(o1))
    else if |qs| == 1 then (n1, Held([Grant(o1.chain, o1.wnode)]))
    else
      TryGetKeeps(nodes, qs[0], oom);
      var (n2, o2) := TryGet(n1, qs[1], oom2);
      if o2.Granted? then (n2, Held([Grant(o1.chain, o1.wnode), Grant(o2.chain, o2.wnode)]))
      else (Released(n2, o1.chain, o1.wnode), Failed(o2))
  }

  /** Giving back a path under which only marks were added leaves only marks: the mark on a node
      that only this path was reading goes away with it. */
  lemma {:induction false} ReleaseUndoes(nodes: Nodes, chain: seq<Id>, wnode: Option<Id>, mid: Nodes)
    requires OnlyMarks(Locked(nodes, chain, wnode), mid)
    requires forall n :: n in chain && n in nodes ==> nodes[n].treelock >= 0
    requires wnode.Some? && wnode.value in nodes ==> nodes[wnode.value].treelock == 0
    ensures OnlyMarks(nodes, Released(mid, chain, wnode))
  {
    var r := Released(mid, chain, wnode);
    forall n | n in nodes
      ensures r[n] == nodes[n].(treelock := r[n].treelock)
      ensures r[n].treelock == nodes[n].treelock || r[n].treelock == Marked(nodes[n].treelock)
    {
      assert n in Locked(nodes, chain, wnode);
    }
  }

  /** All or nothing, for one path and for two: a failed attempt leaves no hold on any node. */
  lemma {:induction false} AllOrNothing(nodes: Nodes, qs: seq<Request>, oom: Option<nat>, oom2: Option<nat>)
    requires Tree(nodes) && 1 <= |qs| <= 2 && (forall q :: q in qs ==> q.base in nodes)
    requires TryAll(nodes, qs, oom, oom2).1.Failed?
    ensures OnlyMarks(nodes, TryAll(nodes, qs, oom, oom2).0)
  {
    var (n1, o1) := TryGet(nodes, qs[0], oom);
    if o1.Granted? {
      TryGetKeeps(nodes, qs[0], oom);
      TryGetGranted(nodes, qs[0], oom);
      TryGetFailed(n1, qs[1], oom2);
      ReleaseUndoes(nodes, o1.chain, o1.wnode, TryGet(n1, qs[1], oom2).0);
    } else {
      TryGetFailed(nodes, qs[0], oom);
    }
  }

  // ---------------------------------------------------------------- which outcome, by the state alone

  /** Where a walk ends if nobody is in the way: where memory runs out, or else at the last node of the chain. */
  ghost function Limit(nodes: Nodes, q: Request, oom: Option<nat>): nat
    requires Tree(nodes) && q.base in nodes
  {
    var last := |Chain(nodes, q.base)| - 1;
    if oom.Some? && 1 <= oom.value <= last then oom.value - 1 else last
  }

  /** Somebody is in the way: the node to be written is not free, or one of the first `lim` nodes of the chain is
      written or awaited by a writer. */
  ghost predicate Busy(nodes: Nodes, q: Request, lim: nat)
    requires Tree(nodes) && q.base in nodes
  {
    var c := Chain(nodes, q.base);
    || (Target(nodes, q).Some? && nodes[Target(nodes, q).value].treelock != 0)
    || (exists n :: n in c[..Least(lim, |c|)] && n in nodes && nodes[n].treelock < 0)
  }

  function Least(a: nat, b: nat): nat { if a < b then a else b }

  /** What an attempt comes to, given whether somebody is in the way: no memory at the start; wait; no memory on the
      way; the whole way to the root; or a way that does not lead there. */
  ghost function Verdict(nodes: Nodes, q: Request, oom: Option<nat>, busy: bool): Outcome
    requires Tree(nodes) && q.base in nodes
  {
    var c, lim := Chain(nodes, q.base), Limit(nodes, q, oom);
    if oom == Some(0) then NoMemory
    else if busy then Again
    else if lim < |c| - 1 then NoMemory
    else if c[|c| - 1] == ROOT then Granted(c[..|c| - 1], Target(nodes, q))
    else Stale
  }

  /** The one trace a failed attempt may leave: the mark on a node that is to be written and has readers. */
  ghost function Marking(nodes: Nodes, q: Request, oom: Option<nat>): Nodes {
    var w := Target(nodes, q);
    if oom != Some(0) && w.Some? && nodes[w.value].treelock > 0
    then SetLock(nodes, w.value, TREELOCK_WAIT_OFFSET + nodes[w.value].treelock)
    else nodes
  }

  lemma {:induction false} WalkVerdict(nodes: Nodes, id: Id, c: seq<Id>, i: nat, oom: Option<nat>, lim: nat)
    requires Tree(nodes) && TopChain(nodes, id, c) && i <= lim < |c|
    requires lim == if oom.Some? && 1 <= oom.value <= |c| - 1 then oom.value - 1 else |c| - 1
    requires oom != Some(0) && forall j :: 0 <= j < i ==> c[j] in nodes && nodes[c[j]].treelock >= 0
    ensures (ChainEnds(nodes, id, c); var (stop, err) := Walk(nodes, c, i, oom);
      if exists j :: 0 <= j < lim && nodes[c[j]].treelock < 0 then err == Some(Again)
      else
        && stop == lim
        && err == (if lim < |c| - 1 then Some(NoMemory) else if c[lim] == ROOT then None else Some(Stale)))
    decreases |c| - i
  {
    ChainEnds(nodes, id, c);
    ChainNext(nodes, id, c, i);
    if i < lim && nodes[c[i]].treelock >= 0 {
      WalkVerdict(nodes, id, c, i + 1, oom, lim);
    }
  }

  /** The outcome of an attempt, and what it does to the words, by the state alone. */
  lemma {:induction false} TryGetVerdict(nodes: Nodes, q: Request, oom: Option<nat>)
    requires Tree(nodes) && q.base in nodes
    ensures var o := Verdict(nodes, q, oom, Busy(nodes, q, Limit(nodes, q, oom)));
      TryGet(nodes, q, oom) == (if o.Granted? then Locked(nodes, o.chain, o.wnode) else Marking(nodes, q, oom), o)
  {
    var c, lim := Chain(nodes, q.base), Limit(nodes, q, oom);
    ChainEnds(nodes, q.base, c);
    if oom != Some(0) {
      WalkVerdict(nodes, q.base, c, 0, oom, lim);
      assert (exists n :: n in c[..lim] && n in nodes && nodes[n].treelock < 0) <==>
             (exists j :: 0 <= j < lim && nodes[c[j]].treelock < 0) by { BusyAt(nodes, c, lim); }
      var w := Target(nodes, q);
      assert w.Some? ==> SetLock(nodes, w.value, nodes[w.value].treelock) == nodes;
    }
  }

  lemma {:induction false} BusyAt(nodes: Nodes, c: seq<Id>, lim: nat)
    requires lim <= |c| && forall x :: x in c ==> x in nodes
    ensures (exists n :: n in c[..lim] && n in nodes && nodes[n].treelock < 0) <==>
            (exists j :: 0 <= j < lim && nodes[c[j]].treelock < 0)
  {
    if exists n :: n in c[..lim] && n in nodes && nodes[n].treelock < 0 {
      var n :| n in c[..lim] && n in nodes && nodes[n].treelock < 0;
      var j :| 0 <= j < lim && c[..lim][j] == n;
      assert nodes[c[j]].treelock < 0;
    }
    if exists j :: 0 <= j < lim && nodes[c[j]].treelock < 0 {
      var j :| 0 <= j < lim && nodes[c[j]].treelock < 0;
      assert c[..lim][j] in c[..lim];
    }
  }

  /** Two paths meet: the node one is to write is one the other is to write or walks through. */
  ghost predicate Meets(nodes: Nodes, p: Request, q: Request, lim: nat)
    requires Tree(nodes) && p.base in nodes && q.base in nodes
  {
    var v, w := Target(nodes, p), Target(nodes, q);
    || (v.Some? && (w == v || v.value in Chain(nodes, q.base)[..Least(lim, |Chain(nodes, q.base)|)]))
    || (w.Some? && w.value != ROOT && w.value in Chain(nodes, p.base))
  }

  /** The outcome of an attempt at two paths, and what it does to the words, by the state alone. */
  lemma {:induction false} TryAllVerdict(nodes: Nodes, p: Request, q: Request, oom: Option<nat>, oom2: Option<nat>)
    requires Tree(nodes) && p.base in nodes && q.base in nodes
    ensures var lim, lim2 := Limit(nodes, p, oom), Limit(nodes, q, oom2);
      var first := Verdict(nodes, p, oom, Busy(nodes, p, lim));
      var second := Verdict(nodes, q, oom2, Busy(nodes, q, lim2) || Meets(nodes, p, q, lim2));
      TryAll(nodes, [p, q], oom, oom2) ==
        if !first.Granted? then (Marking(nodes, p, oom), Failed(first))
        else if !second.Granted? then (Marking(nodes, q, oom2), Failed(second))
        else (Locked(Locked(nodes, first.chain, first.wnode), second.chain, second.wnode),
              Held([Grant(first.chain, first.wnode), Grant(second.chain, second.wnode)]))
  {
    hide TryGet, Chain, TopChain, NodeAt, Target;
    TryGetVerdict(nodes, p, oom);
    var (n1, o1) := TryGet(nodes, p, oom);
    if o1.Granted? {
      TryGetGranted(nodes, p, oom);
      TryGetKeeps(nodes, p, oom);
      TryGetVerdict(n1, q, oom2);
      SecondVerdict(nodes, p, q, oom2, n1, o1);
    }
  }

  /** A granted path, and the words once it is held. */
  ghost predicate HeldPath(nodes: Nodes, n1: Nodes, o: Outcome) {
    && o.Granted? && n1 == Locked(nodes, o.chain, o.wnode)
    && (forall n :: n in o.chain ==> n in nodes && nodes[n].treelock >= 0)
    && (o.wnode.Some? ==> o.wnode.value in nodes && nodes[o.wnode.value].treelock == 0 && o.wnode.value !in o.chain)
  }

  /** With the first path held, the second sees the words of the first as well. */
  lemma {:induction false} SecondVerdict(nodes: Nodes, p: Request, q: Request, oom: Option<nat>, n1: Nodes, o: Outcome)
    requires Tree(nodes) && Tree(n1) && p.base in nodes && q.base in nodes && q.base in n1
    requires o.Granted? && HeldPath(nodes, n1, o) && KeepsLinks(nodes, n1) && o.wnode == Target(nodes, p)
    requires Chain(nodes, p.base) == o.chain + [ROOT] && ROOT !in o.chain
    ensures Limit(n1, q, oom) == Limit(nodes, q, oom) && Target(n1, q) == Target(nodes, q)
    ensures Chain(n1, q.base) == Chain(nodes, q.base)
    ensures Busy(n1, q, Limit(nodes, q, oom)) <==>
            Busy(nodes, q, Limit(nodes, q, oom)) || Meets(nodes, p, q, Limit(nodes, q, oom))
    ensures Released(Marking(n1, q, oom), o.chain, o.wnode) == Marking(nodes, q, oom)
  {
    hide Chain, TopChain, HeldPath, Locked, Released, NodeAt, Busy, Meets, Target;
    KeepsTree(nodes, n1);
    assert Chain(n1, q.base) == Chain(nodes, q.base);
    SameTarget(nodes, n1, q);
    SecondBusy(nodes, p, q, Limit(nodes, q, oom), n1, o);
    TargetLive(nodes, q);
    TargetLive(n1, q);
    Remarked(nodes, n1, o, if oom == Some(0) then None else Target(nodes, q));
  }

  lemma {:induction false} SameTarget(a: Nodes, b: Nodes, q: Request)
    requires forall l :: NodeAt(a, l) == NodeAt(b, l)
    ensures Target(a, q) == Target(b, q)
  {
  }

  lemma {:induction false} TargetLive(nodes: Nodes, q: Request)
    ensures Target(nodes, q).Some? ==> Target(nodes, q).value in nodes
  {
  }

  lemma {:induction false} SecondBusy(nodes: Nodes, p: Request, q: Request, lim: nat, n1: Nodes, o: Outcome)
    requires Tree(nodes) && Tree(n1) && p.base in nodes && q.base in nodes && q.base in n1
    requires o.Granted? && HeldPath(nodes, n1, o) && o.wnode == Target(nodes, p)
    requires Chain(nodes, p.base) == o.chain + [ROOT] && ROOT !in o.chain
    requires Target(n1, q) == Target(nodes, q) && Chain(n1, q.base) == Chain(nodes, q.base)
    ensures Busy(n1, q, lim) <==> Busy(nodes, q, lim) || Meets(nodes, p, q, lim)
  {
    hide Chain, TopChain, HeldPath, NodeAt, Target;
    var c, w := Chain(nodes, q.base), Target(nodes, q);
    TargetLive(nodes, q);
    TargetLive(n1, q);
    NameIsNotRoot(nodes, q);
    SeesTarget(nodes, n1, o, w);
    SeesChain(nodes, n1, o, c[..Least(lim, |c|)]);
    assert w.Some? ==> (w.value in o.chain <==> w.value in Chain(nodes, p.base));
  }

  lemma {:induction false} NameIsNotRoot(nodes: Nodes, q: Request)
    requires Tree(nodes)
    ensures Target(nodes, q) != Some(ROOT)
  {
  }

  lemma {:induction false} SeesTarget(nodes: Nodes, n1: Nodes, o: Outcome, w: Option<Id>)
    requires HeldPath(nodes, n1, o) && (w.Some? ==> w.value in nodes)
    ensures w.Some? ==> w.value in n1
    ensures w.Some? ==>
      (n1[w.value].treelock != 0 <==> nodes[w.value].treelock != 0 || w == o.wnode || w.value in o.chain)
  {
  }

  lemma {:induction false} SeesChain(nodes: Nodes, n1: Nodes, o: Outcome, c: seq<Id>)
    requires HeldPath(nodes, n1, o)
    ensures (exists n :: n in c && n in n1 && n1[n].treelock < 0) <==>
            (exists n :: n in c && n in nodes && nodes[n].treelock < 0) || (o.wnode.Some? && o.wnode.value in c)
  {
    forall n | n in nodes ensures n in n1 && (n1[n].treelock < 0 <==> nodes[n].treelock < 0 || o.wnode == Some(n)) {
    }
    if o.wnode.Some? && o.wnode.value in c {
      assert n1[o.wnode.value].treelock < 0;
    }
  }

  /** A mark set while a path is held, and the path given back: the mark is left on a node that had readers before,
      and only there. */
  lemma {:induction false} Remarked(nodes: Nodes, n1: Nodes, o: Outcome, w: Option<Id>)
    requires HeldPath(nodes, n1, o) && (w.Some? ==> w.value in nodes && w.value in n1)
    ensures
      var marked := if w.Some? && n1[w.value].treelock > 0
                    then SetLock(n1, w.value, TREELOCK_WAIT_OFFSET + n1[w.value].treelock) else n1;
      Released(marked, o.chain, o.wnode) ==
        if w.Some? && nodes[w.value].treelock > 0
        then SetLock(nodes, w.value, TREELOCK_WAIT_OFFSET + nodes[w.value].treelock) else nodes
  {
    var marked := if w.Some? && n1[w.value].treelock > 0
                  then SetLock(n1, w.value, TREELOCK_WAIT_OFFSET + n1[w.value].treelock) else n1;
    var r := Released(marked, o.chain, o.wnode);
    var e := if w.Some? && nodes[w.value].treelock > 0
             then SetLock(nodes, w.value, TREELOCK_WAIT_OFFSET + nodes[w.value].treelock) else nodes;
    assert r.Keys == e.Keys;
    forall n | n in nodes ensures r[n] == e[n] {
    }
  }

  // ---------------------------------------------------------------- outstanding holds

  /** A path that is held: `claim` is the name an unlink or rename is working on. */
  datatype Hold = Hold(base: Id, chain: seq<Id>, wnode: Option<Id>, claim: Option<Link>)

  /** The holds of operation `op` have the keys `2*op` and `2*op + 1`. */
  type Holds = map<nat, Hold>

  ghost function Readers(holds: Holds, n: Id): set<nat> {
    set k | k in holds && n in holds[k].chain
  }

  ghost function Writers(holds: Holds, n: Id): set<nat> {
    set k | k in holds && holds[k].wnode == Some(n)
  }

  ghost predicate EncodedAt(nodes: Nodes, holds: Holds, n: Id)
    requires n in nodes
  {
    LockWord(nodes[n].treelock, |Readers(holds, n)|, |Writers(holds, n)|)
  }

  /** Every lock word says exactly which holds are outstanding. */
  ghost predicate Encoded(nodes: Nodes, holds: Holds) {
    forall n :: n in nodes ==> EncodedAt(nodes, holds, n)
  }

  ghost predicate InRange(holds: Holds) {
    forall k :: k in holds ==> k < 2 * MAX_OPS
  }

  lemma {:induction false} FewReaders(holds: Holds, n: Id)
    requires InRange(holds)
    ensures |Readers(holds, n)| < INT_MAX
  {
    BelowSize(Readers(holds, n), 2 * MAX_OPS);
  }

  /** Granting a path: the words encode one hold more. */
  lemma {:induction false} GrantEncodes(nodes: Nodes, holds: Holds, k: nat, h: Hold)
    requires Encoded(nodes, holds) && InRange(holds) && k !in holds
    requires forall n :: n in h.chain ==> n in nodes && nodes[n].treelock >= 0
    requires h.wnode.Some? ==> h.wnode.value in nodes && nodes[h.wnode.value].treelock == 0 && h.wnode.value !in h.chain
    ensures Encoded(Locked(nodes, h.chain, h.wnode), holds[k := h])
  {
    var r, hs := Locked(nodes, h.chain, h.wnode), holds[k := h];
    forall n | n in r ensures EncodedAt(r, hs, n) {
      GrantEncodesAt(nodes, holds, k, h, n);
    }
  }

  lemma {:induction false} GrantEncodesAt(nodes: Nodes, holds: Holds, k: nat, h: Hold, n: Id)
    requires Encoded(nodes, holds) && InRange(holds) && k !in holds && n in nodes
    requires n in h.chain ==> nodes[n].treelock >= 0
    requires h.wnode == Some(n) ==> nodes[n].treelock == 0 && n !in h.chain
    ensures EncodedAt(Locked(nodes, h.chain, h.wnode), holds[k := h], n)
  {
    assert EncodedAt(nodes, holds, n);
    FewReaders(holds, n);
    HoldAdded(holds, k, h, n);
  }

  /** One hold more is one more reader of its chain and one more writer of its written node. */
  lemma {:induction false} HoldAdded(holds: Holds, k: nat, h: Hold, n: Id)
    requires k !in holds
    ensures |Readers(holds[k := h], n)| == |Readers(holds, n)| + (if n in h.chain then 1 else 0)
    ensures |Writers(holds[k := h], n)| == |Writers(holds, n)| + (if h.wnode == Some(n) then 1 else 0)
  {
    ReaderAdded(holds, k, h, n);
    WriterAdded(holds, k, h, n);
  }

  lemma {:induction false} ReaderAdded(holds: Holds, k: nat, h: Hold, n: Id)
    requires k !in holds
    ensures |Readers(holds[k := h], n)| == |Readers(holds, n)| + (if n in h.chain then 1 else 0)
  {
    var a, b := Readers(holds, n), Readers(holds[k := h], n);
    if n in h.chain {
      assert b == a + {k};
    } else {
      assert b == a;
    }
  }

  lemma {:induction false} WriterAdded(holds: Holds, k: nat, h: Hold, n: Id)
    requires k !in holds
    ensures |Writers(holds[k := h], n)| == |Writers(holds, n)| + (if h.wnode == Some(n) then 1 else 0)
  {
    var a, b := Writers(holds, n), Writers(holds[k := h], n);
    if h.wnode == Some(n) {
      assert b == a + {k};
    } else {
      assert b == a;
    }
  }

  /** Releasing a path: the words encode one hold less. The three asserts of `unlock_path` on the
      nodes of the chain, and the one on the written node, hold. */
  lemma {:induction false} ReleaseEncodes(nodes: Nodes, holds: Holds, k: nat)
    requires Encoded(nodes, holds) && InRange(holds) && k in holds
    ensures Encoded(Released(nodes, holds[k].chain, holds[k].wnode), holds - {k})
  {
    var h, hs := holds[k], holds - {k};
    var r := Released(nodes, h.chain, h.wnode);
    forall n | n in r ensures EncodedAt(r, hs, n) {
      ReleaseEncodesAt(nodes, holds, k, n);
    }
  }

  lemma {:induction false} ReleaseEncodesAt(nodes: Nodes, holds: Holds, k: nat, n: Id)
    requires Encoded(nodes, holds) && InRange(holds) && k in holds && n in nodes
    ensures EncodedAt(Released(nodes, holds[k].chain, holds[k].wnode), holds - {k}, n)
  {
    assert EncodedAt(nodes, holds, n);
    FewReaders(holds, n);
    HoldAdded(holds - {k}, k, holds[k], n);
    assert (holds - {k})[k := holds[k]] == holds;
  }

  lemma {:induction false} ReleaseAsserts(nodes: Nodes, holds: Holds, k: nat)
    requires Encoded(nodes, holds) && InRange(holds) && k in holds
    ensures forall n :: n in holds[k].chain && n in nodes ==>
              nodes[n].treelock != 0 && nodes[n].treelock != TREELOCK_WAIT_OFFSET && nodes[n].treelock != TREELOCK_WRITE
    ensures holds[k].wnode.Some? && holds[k].wnode.value in nodes ==>
              nodes[holds[k].wnode.value].treelock == TREELOCK_WRITE
  {
    forall n | n in holds[k].chain && n in nodes
      ensures nodes[n].treelock != 0 && nodes[n].treelock != TREELOCK_WAIT_OFFSET && nodes[n].treelock != TREELOCK_WRITE
    {
      assert EncodedAt(nodes, holds, n);
      FewReaders(holds, n);
      assert k in Readers(holds, n);
    }
    if holds[k].wnode.Some? && holds[k].wnode.value in nodes {
      assert EncodedAt(nodes, holds, holds[k].wnode.value);
      assert k in Writers(holds, holds[k].wnode.value);
    }
  }

  /** A writer excludes everyone else, and a waiting writer keeps new readers out. */
  lemma {:induction false} WriterExcludes(nodes: Nodes, holds: Holds, k: nat, j: nat, n: Id)
    requires Encoded(nodes, holds) && k in holds && j in holds && n in nodes && holds[k].wnode == Some(n)
    ensures n !in holds[j].chain && (holds[j].wnode == Some(n) ==> j == k)
  {
    assert EncodedAt(nodes, holds, n);
    assert k in Writers(holds, n);
    assert n in holds[j].chain ==> j in Readers(holds, n);
    if holds[j].wnode == Some(n) && j != k {
      SubsetSize({j, k}, Writers(holds, n));
    }
  }

  /** The word of a node is not zero exactly when somebody holds the node. */
  lemma {:induction false} HeldWord(nodes: Nodes, holds: Holds, n: Id)
    requires Encoded(nodes, holds) && InRange(holds) && n in nodes
    ensures nodes[n].treelock != 0 <==> exists k :: k in holds && (n in holds[k].chain || holds[k].wnode == Some(n))
  {
    assert EncodedAt(nodes, holds, n);
    FewReaders(holds, n);
    if nodes[n].treelock != 0 {
      if Writers(holds, n) != {} {
        var k :| k in Writers(holds, n);
      } else {
        assert Readers(holds, n) != {};
        var k :| k in Readers(holds, n);
      }
    }
    if k :| k in holds && (n in holds[k].chain || holds[k].wnode == Some(n)) {
      assert k in Readers(holds, n) || k in Writers(holds, n);
    }
  }

  /** Marks do not change what is encoded. */
  lemma {:induction false} MarksEncode(a: Nodes, b: Nodes, holds: Holds)
    requires Encoded(a, holds) && InRange(holds) && OnlyMarks(a, b)
    ensures Encoded(b, holds)
  {
    forall n | n in b ensures EncodedAt(b, holds, n) {
      assert EncodedAt(a, holds, n);
      FewReaders(holds, n);
    }
  }
}
