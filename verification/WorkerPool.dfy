/** The worker threads of the multi-threaded loop, until the session exits. Each step is one critical
    section under `mt->lock`. */
module WorkerPool {
  import opened Prelude

  const IN_HEADER: nat := 40
  const FORGET_IN: nat := 8
  const BATCH_FORGET_IN: nat := 8
  const FORGET_ONE: nat := 16
  const WRITE_IN: nat := 40

  /** A message from the kernel: a FORGET, a BATCH_FORGET of `count` nodes, or any other of its size. */
  datatype Message = Forget | BatchForget(count: nat) | Other(bytes: nat)

  function Size(m: Message): nat {
    match m
    case Forget => IN_HEADER + FORGET_IN
    case BatchForget(count) => IN_HEADER + BATCH_FORGET_IN + count * FORGET_ONE
    case Other(bytes) => bytes
  }

  /** `_fuse_session_receive_buf`: a message that came by splice stays in the pipe unless it is small. */
  predicate InPipe(m: Message, splice: bool, pagesize: nat) {
    splice && Size(m) >= IN_HEADER + WRITE_IN + pagesize
  }

  /** A worker waits for a message, or works on one; `pipe` says whether the message is in a pipe. */
  datatype Worker = Receiving | Working(message: Message, pipe: bool)

  /** The `isforget` of `fuse_do_work`: the opcode is looked at only in memory. */
  predicate IsForget(m: Message, pipe: bool) { !m.Other? && !pipe }

  /** A worker that `numavail` does not count. */
  predicate Busy(w: Worker) { w.Working? && !IsForget(w.message, w.pipe) }

  /** `struct fuse_mt`. `workers` is the worker list; `failed` says whether the last attempt to start a thread
      failed. */
  datatype Pool = Pool(workers: map<nat, Worker>, numworker: int, numavail: int, maxIdle: int, maxThreads: int,
                       pagesize: nat, failed: bool)

  datatype Step =
    | Receive(worker: nat, message: Message, splice: bool, newWorker: nat, started: bool)  // first locked section
    | Finish(worker: nat)                                                                  // second

  /** `fuse_loop_start_thread`. */
  function StartThread(p: Pool, id: nat, started: bool): Pool {
    if started then
      p.(workers := p.workers[id := Receiving], numavail := p.numavail + 1, numworker := p.numworker + 1,
        failed := false)
    else p.(failed := true)
  }

  /** The workers available once the message is in hand. */
  function Remaining(p: Pool, m: Message, splice: bool): int {
    if IsForget(m, InPipe(m, splice, p.pagesize)) then p.numavail else p.numavail - 1
  }

  predicate Starts(p: Pool, m: Message, splice: bool) {
    Remaining(p, m, splice) == 0 && p.numworker < p.maxThreads
  }

  function Received(p: Pool, w: nat, m: Message, splice: bool, id: nat, started: bool): Pool {
    var q := p.(workers := p.workers[w := Working(m, InPipe(m, splice, p.pagesize))],
        numavail := Remaining(p, m, splice));
    if Starts(p, m, splice) then StartThread(q, id, started) else q
  }

  /** A worker that has done its request leaves if there are more available ones than wanted. */
  function Finished(p: Pool, w: nat): Pool
    requires w in p.workers && p.workers[w].Working?
  {
    var avail := if Busy(p.workers[w]) then p.numavail + 1 else p.numavail;
    if p.maxIdle != -1 && avail > p.maxIdle && p.numworker > 1 then
      p.(workers := p.workers - {w}, numavail := avail - 1, numworker := p.numworker - 1)
    else p.(workers := p.workers[w := Receiving], numavail := avail)
  }

  ghost predicate Enabled(p: Pool, step: Step) {
    match step
    case Receive(w, _, _, id, _) => w in p.workers && p.workers[w].Receiving? && id !in p.workers
    case Finish(w) => w in p.workers && p.workers[w].Working?
  }

  ghost function Next(p: Pool, step: Step): Pool
    requires Enabled(p, step)
  {
    match step
    case Receive(w, m, splice, id, started) => Received(p, w, m, splice, id, started)
    case Finish(w) => Finished(p, w)
  }

  /** The workers that wait, or work on a forget that they know for one. */
  ghost function Available(workers: map<nat, Worker>): set<nat> {
    set w | w in workers && !Busy(workers[w])
  }

  function Limit(p: Pool): int { if p.maxThreads > 1 then p.maxThreads else 1 }

  /** Some idle thread may be kept: no limit, or a positive one. */
  predicate KeepsIdle(maxIdle: int) { maxIdle == -1 || maxIdle > 0 }

  /** The most workers that are ever available under a limit. */
  function IdleLimit(maxIdle: int): int { if maxIdle > 1 then maxIdle else 1 }

  ghost predicate Inv(p: Pool) {
    && p.numworker == |p.workers| && 1 <= p.numworker <= Limit(p)
    && p.numavail == |Available(p.workers)|
    && (p.maxIdle != -1 ==> p.numavail <= IdleLimit(p.maxIdle))
    && (KeepsIdle(p.maxIdle) && p.numavail == 0 ==> p.numworker >= p.maxThreads || p.failed)
  }

  lemma {:induction false} AvailableSet(workers: map<nat, Worker>, w: nat, s: Worker)
    requires w in workers
    ensures |Available(workers[w := s])| ==
            |Available(workers)| + (if !Busy(s) then 1 else 0) - (if !Busy(workers[w]) then 1 else 0)
    ensures |workers[w := s]| == |workers|
  {
    var a, b := Available(workers), Available(workers[w := s]);
    var rest := a - {w};
    assert a == if !Busy(workers[w]) then rest + {w} else rest;
    assert b == if !Busy(s) then rest + {w} else rest;
    assert workers[w := s].Keys == workers.Keys;
  }

  lemma {:induction false} AvailableAdd(workers: map<nat, Worker>, id: nat)
    requires id !in workers
    ensures |Available(workers[id := Receiving])| == |Available(workers)| + 1
    ensures |workers[id := Receiving]| == |workers| + 1
  {
    assert Available(workers[id := Receiving]) == Available(workers) + {id};
  }

  lemma {:induction false} AvailableRemove(workers: map<nat, Worker>, w: nat)
    requires w in workers
    ensures |Available(workers - {w})| == |Available(workers)| - (if !Busy(workers[w]) then 1 else 0)
    ensures |workers - {w}| == |workers| - 1
  {
    var a, b := Available(workers), Available(workers - {w});
    assert a == if !Busy(workers[w]) then b + {w} else b;
    RemoveOne((workers - {w}).Keys, workers.Keys, w);
  }

  /** While somebody receives, somebody is available. */
  lemma {:induction false} ReceiverCounts(p: Pool, w: nat)
    requires Inv(p) && w in p.workers && p.workers[w].Receiving?
    ensures p.numavail >= 1
  {
    assert w in Available(p.workers);
  }

  /** Any message starts a thread exactly when it leaves nobody available below the limit: it is not known for a
      forget, and the last one available received it. */
  lemma {:induction false} StartsExactly(p: Pool, w: nat, m: Message, splice: bool)
    requires Inv(p) && w in p.workers && p.workers[w].Receiving?
    ensures Starts(p, m, splice) <==>
            (m.Other? || InPipe(m, splice, p.pagesize)) && Available(p.workers) == {w} && p.numworker < p.maxThreads
  {
    assert w in Available(p.workers);
    if p.numavail == 1 {
      var rest := Available(p.workers) - {w};
      assert Available(p.workers) == rest + {w};
    }
  }

  /** A worker that is done leaves exactly when more would be available than the limit allows, unless it is the last;
      one that stays receives again, and the others are as they were. */
  lemma {:induction false} SurplusLeaves(p: Pool, w: nat)
    requires Inv(p) && Enabled(p, Finish(w))
    ensures var n := Next(p, Finish(w));
      && n.workers - {w} == p.workers - {w}
      && (w in n.workers ==> n.workers[w].Receiving?)
      && (w !in n.workers <==>
           p.maxIdle != -1 && |Available(p.workers) + {w}| > p.maxIdle && |p.workers| > 1)
  {
    AvailableSet(p.workers, w, Receiving);
    assert Available(p.workers[w := Receiving]) == Available(p.workers) + {w};
  }

  /** When a forget starts a thread: exactly when it came by splice, too large to be taken out of the pipe, and
      it was received by the last one available below the limit. A single FORGET is never that large, and a
      BATCH_FORGET is from a certain count on. */
  lemma {:induction false} ForgetStarts(p: Pool, w: nat, m: Message, splice: bool)
    requires Inv(p) && w in p.workers && p.workers[w].Receiving? && !m.Other?
    ensures Starts(p, m, splice) <==> InPipe(m, splice, p.pagesize) && p.numavail == 1 && p.numworker < p.maxThreads
    ensures m.Forget? ==> !Starts(p, m, splice)
    ensures m.BatchForget? ==> (InPipe(m, splice, p.pagesize) <==> splice && 16 * m.count >= 32 + p.pagesize)
  {
    ReceiverCounts(p, w);
  }

  lemma {:induction false} StepKeeps(p: Pool, step: Step)
    requires Inv(p) && Enabled(p, step)
    ensures Inv(Next(p, step))
  {
    match step
    case Receive(w, m, splice, id, started) =>
      var now := Working(m, InPipe(m, splice, p.pagesize));
      AvailableSet(p.workers, w, now);
      ReceiverCounts(p, w);
      AvailableAdd(p.workers[w := now], id);
    case Finish(w) =>
      AvailableSet(p.workers, w, Receiving);
      AvailableRemove(p.workers, w);
  }

  // ---------------------------------------------------------------- all runs

  /** The pool once the first thread has been started. */
  function Init(first: nat, maxIdle: int, maxThreads: int, pagesize: nat): Pool {
    Pool(map[first := Receiving], 1, 1, maxIdle, maxThreads, pagesize, false)
  }

  lemma {:induction false} InitHolds(first: nat, maxIdle: int, maxThreads: int, pagesize: nat)
    ensures Inv(Init(first, maxIdle, maxThreads, pagesize))
  {
    assert Available(map[first := Receiving]) == {first};
  }

  ghost function RunFrom(p: Pool, steps: seq<Step>): (r: Option<Pool>)
    requires Inv(p)
    ensures r.Some? ==> Inv(r.value) && r.value.maxIdle == p.maxIdle && r.value.maxThreads == p.maxThreads
    decreases |steps|
  {
    if steps == [] then Some(p)
    else if !Enabled(p, steps[0]) then None
    else
      StepKeeps(p, steps[0]);
      RunFrom(Next(p, steps[0]), steps[1..])
  }

  /** Over every run the worker count is the length of the list and within its limits, and the available
      count is exact and, under an idle limit, never above it (or one). */
  lemma {:induction false} PoolIsAccounted(first: nat, maxIdle: int, maxThreads: int, pagesize: nat, steps: seq<Step>)
    ensures (InitHolds(first, maxIdle, maxThreads, pagesize);
      var r := RunFrom(Init(first, maxIdle, maxThreads, pagesize), steps);
      r.Some? ==>
        && r.value.numworker == |r.value.workers|
        && 1 <= r.value.numworker <= (if maxThreads > 1 then maxThreads else 1)
        && r.value.numavail == |Available(r.value.workers)|
        && (maxIdle != -1 ==> |Available(r.value.workers)| <= (if maxIdle > 1 then maxIdle else 1)))
  {
    InitHolds(first, maxIdle, maxThreads, pagesize);
  }

  /** Nobody is there to read the next request, although the limit is not reached and no attempt to start a
      thread failed. */
  ghost predicate Starved(p: Pool) {
    Available(p.workers) == {} && p.numworker < p.maxThreads && !p.failed
  }

  /** No run starves the pool, if and only if some idle thread may be kept or there is one thread at most. */
  lemma {:induction false} NeverStarves(first: nat, maxIdle: int, maxThreads: int, pagesize: nat)
    ensures (InitHolds(first, maxIdle, maxThreads, pagesize);
      (forall steps ::
        var r := RunFrom(Init(first, maxIdle, maxThreads, pagesize), steps); r.Some? ==> !Starved(r.value))
        <==> KeepsIdle(maxIdle) || maxThreads <= 1)
  {
    InitHolds(first, maxIdle, maxThreads, pagesize);
    if !KeepsIdle(maxIdle) && maxThreads > 1 {
      var steps := Starving(Init(first, maxIdle, maxThreads, pagesize), first);
    }
  }

  /** With no idle thread allowed: once every thread up to the limit is busy, the first to finish leaves, and
      nobody is available. */
  lemma {:induction false} Starving(p: Pool, w: nat) returns (steps: seq<Step>)
    requires Inv(p) && w in p.workers && p.maxThreads > 1 && !KeepsIdle(p.maxIdle) && !p.failed
    requires forall x :: x in p.workers ==>
        x <= w && p.workers[x] == if x == w then Receiving else Working(Other(IN_HEADER), false)
    ensures var r := RunFrom(p, steps); r.Some? && Starved(r.value)
    decreases p.maxThreads - p.numworker
  {
    assert Available(p.workers) == {w};
    var take := Receive(w, Other(IN_HEADER), false, w + 1, true);
    StepKeeps(p, take);
    var q := Next(p, take);
    if p.numworker < p.maxThreads {
      var rest := Starving(q, w + 1);
      steps := [take] + rest;
      assert steps[1..] == rest;
    } else {
      StepKeeps(q, Finish(w));
      steps := [take, Finish(w)];
      assert steps[1..] == [Finish(w)] && [Finish(w)][1..] == [];
      var r := Next(q, Finish(w));
      assert Available(r.workers) == {};
      assert RunFrom(r, []) == Some(r);
      assert RunFrom(q, [Finish(w)]) == Some(r);
    }
  }

  /** A forget that starts a thread: after INIT, which starts the second worker, and with the first one busy, a
      batch of 258 that comes by splice on pages of 4096 starts a third. */
  lemma {:induction false} SplicedBatchStarts(first: nat, maxThreads: int)
    requires maxThreads > 2
    ensures (InitHolds(first, -1, maxThreads, 4096);
      var steps := [Receive(first, Other(104), false, first + 1, true), Finish(first),
                    Receive(first, Other(64), false, first + 2, true)];
      var r := RunFrom(Init(first, -1, maxThreads, 4096), steps);
      && r.Some? && Starts(r.value, BatchForget(258), true)
      && first + 1 in r.value.workers && r.value.workers[first + 1].Receiving?)
  {
    InitHolds(first, -1, maxThreads, 4096);
    var p0 := Init(first, -1, maxThreads, 4096);
    var init, done, busy := Receive(first, Other(104), false, first + 1, true), Finish(first),
                            Receive(first, Other(64), false, first + 2, true);
    StepKeeps(p0, init);
    var p1 := Next(p0, init);
    StepKeeps(p1, done);
    var p2 := Next(p1, done);
    StepKeeps(p2, busy);
    var p3 := Next(p2, busy);
    assert [init, done, busy][1..] == [done, busy] && [done, busy][1..] == [busy] && [busy][1..] == [];
    assert RunFrom(p3, []) == Some(p3);
    assert RunFrom(p2, [busy]) == Some(p3);
    assert RunFrom(p1, [done, busy]) == Some(p3);
  }
}
