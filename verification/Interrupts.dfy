/** Interrupts and the lifetime of requests in the low-level session.

    A step is what a thread does between two points at which other threads can get in: it takes
    `se->lock` at most once. A request's own mutex is held across steps, so it is part of the
    state. Requests are known by a number given at allocation; a destroyed request is gone from
    the map, so a later use of it would have no meaning. Interrupts are enabled throughout. */
module Interrupts {
  import opened Prelude

  datatype Holder = Handler | Interrupter(thread: nat)

  /** `struct fuse_req` of an ordinary request. `called` records the callbacks that were run. */
  datatype Req = Req(
      unique: nat, refs: nat, interrupted: bool, func: Option<nat>, holder: Option<Holder>, called: set<nat>)

  /** Where the thread that handles a request is: outside the library, or inside
      `fuse_req_interrupt_func` with the request's mutex (before and after it has set the callback,
      and while it runs the callback itself), or about to free the request. */
  datatype HandlerPc =
    | Running
    | RegHeld(func: Option<nat>)
    | RegSet(func: Option<nat>)
    | RegCalled(ran: nat)
    | Destroying

  /** Where a thread in `find_interrupted` is after it has found the request and taken a reference. */
  datatype IntrPc =
    | Found(req: nat)
    | Locked(req: nat)
    | Marked(req: nat, copy: Option<nat>)
    | Dropping(req: nat)

  /** What has become of an interrupt. */
  datatype Fate =
    | Delivering(req: nat) | Delivered(req: nat) | Waits | Duplicate(of: nat) | AnsweredAgain | Matched(req: nat)

  datatype Pending = Pending(intr: nat, target: nat)

  datatype Session = Session(
    reqs: map<nat, Req>,
    list: seq<nat>,
    pending: seq<Pending>,
    handlers: map<nat, HandlerPc>,
    intrs: map<nat, IntrPc>,
    fates: map<nat, Fate>,
    targets: map<nat, nat>,
    issued: set<nat>)

  // ---------------------------------------------------------------- searches

  /** The search of `find_interrupted` in `se->list`. */
  function FindInFlight(list: seq<nat>, reqs: map<nat, Req>, unique: nat): (r: Option<nat>)
    requires forall x :: x in list ==> x in reqs
    ensures r.Some? ==> r.value in list && reqs[r.value].unique == unique
    ensures r.None? ==> forall x :: x in list ==> reqs[x].unique != unique
  {
    if list == [] then None
    else if reqs[list[0]].unique == unique then Some(list[0])
    else FindInFlight(list[1..], reqs, unique)
  }

  /** The search of `check_interrupt` and of the second half of `find_interrupted`. */
  function FindPending(pending: seq<Pending>, target: nat): (r: Option<nat>)
    ensures r.Some? ==> r.value < |pending| && pending[r.value].target == target
    ensures r.None? ==> forall i :: 0 <= i < |pending| ==> pending[i].target != target
  {
    if pending == [] then None
    else if pending[0].target == target then Some(0)
    else
      var r := FindPending(pending[1..], target);
      if r.Some? then Some(r.value + 1) else None
  }

  function Referrer(pc: IntrPc): nat { pc.req }

  /** The threads in `find_interrupted` that hold a reference to request `r`. */
  ghost function Referrers(intrs: map<nat, IntrPc>, r: nat): set<nat> {
    set t | t in intrs && Referrer(intrs[t]) == r
  }

  // ---------------------------------------------------------------- the steps

  datatype Step =
    | Arrive(req: nat, unique: nat)              // the list step of fuse_session_process_buf_internal
    | Interrupt(intr: nat, target: nat)          // do_interrupt up to the first unlock of se->lock
    | IntrLock(intr: nat)                        // ... it gets the request's mutex
    | IntrMark(intr: nat)                        // ... marks, and copies the callback
    | IntrUnlock(intr: nat)                      // ... has run the callback, if any
    | IntrDrop(intr: nat)                        // ... drops its reference
    | RegLock(req: nat, func: Option<nat>)       // fuse_req_interrupt_func gets the request's mutex
    | RegStore(req: nat)                         // ... stores the callback
    | RegTest(req: nat)                          // ... runs it if already interrupted
    | RegUnlock(req: nat)
    | Reply(req: nat)                            // the locked part of fuse_free_req
    | Destroy(req: nat)                          // its destroy_req

  ghost predicate Enabled(s: Session, step: Step) {
    match step
    case Arrive(r, _) => r !in s.issued
    case Interrupt(i, _) => i !in s.fates && i !in s.intrs
    case IntrLock(t) =>
      && t in s.intrs && s.intrs[t].Found?
      && s.intrs[t].req in s.reqs && s.reqs[s.intrs[t].req].holder.None?
    case IntrMark(t) => t in s.intrs && s.intrs[t].Locked? && s.intrs[t].req in s.reqs
    case IntrUnlock(t) => t in s.intrs && s.intrs[t].Marked? && s.intrs[t].req in s.reqs
    case IntrDrop(t) => t in s.intrs && s.intrs[t].Dropping? && s.intrs[t].req in s.reqs
    case RegLock(r, _) => r in s.handlers && s.handlers[r].Running? && r in s.reqs && s.reqs[r].holder.None?
    case RegStore(r) => r in s.handlers && s.handlers[r].RegHeld? && r in s.reqs
    case RegTest(r) =>
      && r in s.handlers && s.handlers[r].RegSet? && s.handlers[r].func.Some?
      && r in s.reqs && s.reqs[r].interrupted
    case RegUnlock(r) =>
      && r in s.handlers && r in s.reqs
      && (s.handlers[r].RegCalled? || (s.handlers[r].RegSet? && !(s.reqs[r].interrupted && s.handlers[r].func.Some?)))
    case Reply(r) => r in s.handlers && s.handlers[r].Running? && r in s.reqs
    case Destroy(r) => r in s.handlers && s.handlers[r].Destroying? && r in s.reqs
  }

  function Set(s: Session, r: nat, q: Req): Session {
    s.(reqs := s.reqs[r := q])
  }

  /** A new request takes the interrupt that was waiting for it, or sends one waiting interrupt back to
      the kernel. */
  function Arrived(s: Session, r: nat, unique: nat): Session {
    var hit := FindPending(s.pending, unique);
    var s1 :=
      if hit.Some? then
        s.(pending := DropAt(s.pending, hit.value), fates := s.fates[s.pending[hit.value].intr := Matched(r)])
      else if s.pending != [] then
        s.(pending := s.pending[1..], fates := s.fates[s.pending[0].intr := AnsweredAgain])
      else s;
    s1.(reqs := s1.reqs[r := Req(unique, 1, hit.Some?, None, None, {})], list := s1.list + [r],
        handlers := s1.handlers[r := Running],
      issued := s1.issued + {r})
  }

  /** `do_interrupt` up to where it lets go of the session lock: a reference to the request in flight, or
      a place on the waiting list, or nothing for a duplicate. */
  function TakeInterrupt(s0: Session, i: nat, target: nat): Session
    requires forall x :: x in s0.list ==> x in s0.reqs
  {
    var s := s0.(targets := s0.targets[i := target]);
    match FindInFlight(s.list, s.reqs, target)
    case Some(r) =>
      Set(s, r, s.reqs[r].(refs := s.reqs[r].refs + 1)).(
        intrs := s.intrs[i := Found(r)], fates := s.fates[i := Delivering(r)])
    case None =>
      match FindPending(s.pending, target)
      case Some(k) => s.(fates := s.fates[i := Duplicate(s.pending[k].intr)])
      case None => s.(pending := s.pending + [Pending(i, target)], fates := s.fates[i := Waits])
  }

  ghost function Next(s: Session, step: Step): Session
    requires Enabled(s, step) && forall x :: x in s.list ==> x in s.reqs
  {
    match step
    case Arrive(r, unique) => Arrived(s, r, unique)
    case Interrupt(i, target) => TakeInterrupt(s, i, target)
    case IntrLock(t) =>
      var r := s.intrs[t].req;
      Set(s, r, s.reqs[r].(holder := Some(Interrupter(t)))).(intrs := s.intrs[t := Locked(r)])
    case IntrMark(t) =>
      var r := s.intrs[t].req;
      Set(s, r, s.reqs[r].(interrupted := true)).(
        intrs := s.intrs[t := Marked(r, s.reqs[r].func)], fates := s.fates[t := Delivered(r)])
    case IntrUnlock(t) =>
      var r, copy := s.intrs[t].req, s.intrs[t].copy;
      Set(s, r, s.reqs[r].(holder := None, called := s.reqs[r].called + (if copy.Some? then {copy.value} else {}))).(
        intrs := s.intrs[t := Dropping(r)])
    case IntrDrop(t) =>
      var r := s.intrs[t].req;
      var s1 := s.(intrs := s.intrs - {t});
      if s.reqs[r].refs <= 1 then s1.(reqs := s1.reqs - {r}) else Set(s1, r, s.reqs[r].(refs := s.reqs[r].refs - 1))
    case RegLock(r, func) =>
      Set(s, r, s.reqs[r].(holder := Some(Handler))).(handlers := s.handlers[r := RegHeld(func)])
    case RegStore(r) =>
      Set(s, r, s.reqs[r].(func := s.handlers[r].func)).(handlers := s.handlers[r := RegSet(s.handlers[r].func)])
    case RegTest(r) =>
      var f := s.handlers[r].func.value;
      Set(s, r, s.reqs[r].(called := s.reqs[r].called + {f})).(handlers := s.handlers[r := RegCalled(f)])
    case RegUnlock(r) =>
      Set(s, r, s.reqs[r].(holder := None)).(handlers := s.handlers[r := Running])
    case Reply(r) =>
      var refs := if s.reqs[r].refs > 0 then s.reqs[r].refs - 1 else 0;
      var s1 := Set(s, r, s.reqs[r].(func := None, refs := refs)).(list := Without(s.list, r));
      if refs == 0 then s1.(handlers := s1.handlers[r := Destroying]) else s1.(handlers := s1.handlers - {r})
    case Destroy(r) =>
      s.(reqs := s.reqs - {r}, handlers := s.handlers - {r})
  }

  // ---------------------------------------------------------------- the invariant

  ghost predicate Working(s: Session, r: nat) {
    r in s.handlers && !s.handlers[r].Destroying?
  }

  /** References: one for the handler until it replies, one for each thread delivering an interrupt.
      A request nobody refers to is about to be destroyed by the handler that saw the count drop. */
  ghost predicate Counted(s: Session, r: nat)
    requires r in s.reqs
  {
    && s.reqs[r].refs == (if Working(s, r) then 1 else 0) + |Referrers(s.intrs, r)|
    && (s.reqs[r].refs == 0 <==> r in s.handlers && s.handlers[r].Destroying?)
    && (Working(s, r) <==> r in s.list)
  }

  /** The mutex of a request: its holder is the thread that is inside the section it guards. */
  ghost predicate Guarded(s: Session, r: nat)
    requires r in s.reqs
  {
    && (s.reqs[r].holder == Some(Handler) <==> r in s.handlers && !s.handlers[r].Running? && !s.handlers[r].Destroying?)
    && (forall t :: t in s.intrs && s.intrs[t].req == r ==>
         (s.reqs[r].holder == Some(Interrupter(t)) <==> s.intrs[t].Locked? || s.intrs[t].Marked?))
    && (s.reqs[r].holder.Some? && s.reqs[r].holder.value.Interrupter? ==>
         s.reqs[r].holder.value.thread in s.intrs && s.intrs[s.reqs[r].holder.value.thread].req == r)
  }

  /** Somebody inside the request's mutex is about to run callback `f`. */
  ghost predicate AboutToCall(s: Session, r: nat, f: nat) {
    || (r in s.handlers && s.handlers[r] == RegSet(Some(f)))
    || (exists t :: t in s.intrs && s.intrs[t] == Marked(r, Some(f)))
  }

  /** No callback is lost: a callback registered on an interrupted request has run or is about to. */
  ghost predicate CallbackSafe(s: Session, r: nat)
    requires r in s.reqs
  {
    && (s.reqs[r].interrupted && s.reqs[r].func.Some? ==>
         s.reqs[r].func.value in s.reqs[r].called || AboutToCall(s, r, s.reqs[r].func.value))
    && (r in s.handlers && s.handlers[r].RegSet? ==> s.reqs[r].func == s.handlers[r].func)
    && (r in s.handlers && s.handlers[r].RegCalled? ==>
         s.reqs[r].func == Some(s.handlers[r].ran) && s.handlers[r].ran in s.reqs[r].called)
  }

  /** While a request is registered without callback and its handler is outside, nobody runs or will run
      one. */
  ghost predicate Quiet(s: Session, r: nat) {
    Working(s, r) && r in s.reqs && s.reqs[r].func.None? ==>
      forall t :: t in s.intrs && s.intrs[t].req == r && s.intrs[t].Marked? ==> s.intrs[t].copy.None?
  }

  ghost predicate ThreadsLive(s: Session) {
    && (forall r :: r in s.handlers ==> r in s.reqs)
    && (forall t :: t in s.intrs ==> s.intrs[t].req in s.reqs)
    && (forall r :: r in s.list ==> r in s.reqs)
    && (forall r :: r in s.reqs ==> r in s.issued)
  }

  /** No request in flight is the target of a waiting interrupt, and waiting targets are distinct. */
  ghost predicate ListsApart(s: Session) {
    && (forall r, i :: r in s.list && r in s.reqs && 0 <= i < |s.pending| ==> s.reqs[r].unique != s.pending[i].target)
    && (forall i, j :: 0 <= i < j < |s.pending| ==>
        s.pending[i].target != s.pending[j].target && s.pending[i].intr != s.pending[j].intr)
  }

  /** The interrupts recorded as waiting are those on the waiting list. */
  ghost predicate WaitsOk(pending: seq<Pending>, fates: map<nat, Fate>) {
    && (forall i :: 0 <= i < |pending| ==> pending[i].intr in fates && fates[pending[i].intr] == Waits)
    && (forall i :: i in fates && fates[i] == Waits ==> exists k :: 0 <= k < |pending| && pending[k].intr == i)
  }

  /** An interrupt recorded as delivered, or matched on arrival, has marked its request; one still being
      delivered has a thread on its way there. */
  ghost predicate FateOk(s: Session, i: nat)
    requires i in s.fates
  {
    match s.fates[i]
    case Delivering(r) => i in s.intrs && (s.intrs[i] == Found(r) || s.intrs[i] == Locked(r))
    case Delivered(r) => r in s.issued && (r in s.reqs ==> s.reqs[r].interrupted)
    case Matched(r) => r in s.issued && (r in s.reqs ==> s.reqs[r].interrupted)
    case _ => true
  }

  /** The record that goes with a delivering thread. */
  function Underway(pc: IntrPc): Fate {
    if pc.Found? || pc.Locked? then Delivering(pc.req) else Delivered(pc.req)
  }

  ghost predicate FatesOk(s: Session) {
    && WaitsOk(s.pending, s.fates)
    && (forall i :: i in s.fates ==> FateOk(s, i))
    && (forall t :: t in s.intrs ==> t in s.fates && s.fates[t] == Underway(s.intrs[t]))
  }

  ghost predicate ReqOk(s: Session, r: nat)
    requires r in s.reqs
  {
    Counted(s, r) && Guarded(s, r) && CallbackSafe(s, r) && Quiet(s, r)
  }

  ghost predicate Inv(s: Session) {
    && ThreadsLive(s) && ListsApart(s) && FatesOk(s)
    && (forall r :: r in s.reqs ==> ReqOk(s, r))
  }

  // ---------------------------------------------------------------- frames

  /** A request whose own record, handler, list membership and referring threads did not change is as
      good as before. */
  lemma {:induction false} SameReq(a: Session, b: Session, r: nat)
    requires r in a.reqs && r in b.reqs && a.reqs[r] == b.reqs[r] && ReqOk(a, r)
    requires r in a.handlers <==> r in b.handlers
    requires r in a.handlers ==> a.handlers[r] == b.handlers[r]
    requires r in a.list <==> r in b.list
    requires forall t :: t in a.intrs && a.intrs[t].req == r ==> t in b.intrs && b.intrs[t] == a.intrs[t]
    requires forall t :: t in b.intrs && b.intrs[t].req == r ==> t in a.intrs && b.intrs[t] == a.intrs[t]
    ensures ReqOk(b, r)
  {
    assert Referrers(a.intrs, r) == Referrers(b.intrs, r);
    if b.reqs[r].interrupted && b.reqs[r].func.Some? && b.reqs[r].func.value !in b.reqs[r].called {
      assert AboutToCall(a, r, a.reqs[r].func.value);
    }
  }

  lemma {:induction false} ReferrersAdd(intrs: map<nat, IntrPc>, t: nat, pc: IntrPc, r: nat)
    requires t !in intrs && pc.req == r
    ensures |Referrers(intrs[t := pc], r)| == |Referrers(intrs, r)| + 1
  {
    assert Referrers(intrs[t := pc], r) == Referrers(intrs, r) + {t};
  }

  lemma {:induction false} ReferrersSame(intrs: map<nat, IntrPc>, t: nat, pc: IntrPc, r: nat)
    requires t in intrs && intrs[t].req == r && pc.req == r
    ensures Referrers(intrs[t := pc], r) == Referrers(intrs, r)
  {
  }

  lemma {:induction false} ReferrersRemove(intrs: map<nat, IntrPc>, t: nat, r: nat)
    requires t in intrs && intrs[t].req == r
    ensures |Referrers(intrs, r)| == |Referrers(intrs - {t}, r)| + 1
  {
    assert Referrers(intrs, r) == Referrers(intrs - {t}, r) + {t};
  }

  // ---------------------------------------------------------------- each step keeps the invariant

  lemma {:induction false} ArriveKeeps(s: Session, r: nat, unique: nat)
    requires Inv(s) && Enabled(s, Arrive(r, unique))
    ensures Inv(Arrived(s, r, unique))
  {
    hide ReqOk, FatesOk, ListsApart, Arrived;
    var n := Arrived(s, r, unique);
    ArriveShape(s, r, unique);
    assert ReqOk(n, r) by { NewReq(s, n, r, n.reqs[r]); }
    forall x | x in n.reqs && x != r ensures ReqOk(n, x) {
      assert ReqOk(s, x);
      SameReq(s, n, x);
    }
    ArriveLists(s, r, unique);
    ArriveFates(s, r, unique);
  }

  lemma {:induction false} ArriveShape(s: Session, r: nat, unique: nat)
    ensures var n := Arrived(s, r, unique);
      && n.reqs == s.reqs[r := Req(unique, 1, FindPending(s.pending, unique).Some?, None, None, {})]
      && n.list == s.list + [r] && n.handlers == s.handlers[r := Running] && n.intrs == s.intrs
      && n.issued == s.issued + {r}
  {
  }

  lemma {:induction false} NewReq(s: Session, n: Session, r: nat, q: Req)
    requires ThreadsLive(s) && r !in s.reqs && r in n.reqs && n.reqs[r] == q && n.intrs == s.intrs
    requires q.refs == 1 && q.func.None? && q.holder.None? && r in n.handlers && n.handlers[r].Running? && r in n.list
    ensures ReqOk(n, r)
  {
    assert Referrers(n.intrs, r) == {};
  }

  lemma {:induction false} ArriveLists(s: Session, r: nat, unique: nat)
    requires ThreadsLive(s) && ListsApart(s) && r !in s.issued
    ensures ListsApart(Arrived(s, r, unique))
  {
    hide FindPending;
    var n := Arrived(s, r, unique);
    ArriveShape(s, r, unique);
    forall x, i | x in n.list && x in n.reqs && 0 <= i < |n.pending| ensures n.reqs[x].unique != n.pending[i].target {
      var hit := FindPending(s.pending, unique);
      if hit.Some? {
        assert n.pending[i] == s.pending[if i < hit.value then i else i + 1];
      } else {
        assert n.pending[i] == s.pending[i + 1];
      }
    }
  }

  lemma {:induction false} ArriveFates(s: Session, r: nat, unique: nat)
    requires ThreadsLive(s) && ListsApart(s) && FatesOk(s) && r !in s.issued
    ensures FatesOk(Arrived(s, r, unique))
  {
    var n := Arrived(s, r, unique);
    var hit := FindPending(s.pending, unique);
    if hit.None? && s.pending != [] {
      assert s.pending[1..] == DropAt(s.pending, 0);
    }
    hide FatesOk, FindPending, DropAt;
    if hit.Some? {
      Refated(s, n, r, hit.value, Matched(r));
    } else if s.pending != [] {
      Refated(s, n, r, 0, AnsweredAgain);
    } else {
      ArrivedFates(s, n, r);
    }
  }

  /** The k-th waiting interrupt leaves the list and gets another record as request `r` arrives. */
  lemma {:induction false} Refated(s: Session, n: Session, r: nat, k: nat, fate: Fate)
    requires FatesOk(s) && ListsApart(s) && ThreadsLive(s) && k < |s.pending| && r !in s.issued
    requires n.pending == DropAt(s.pending, k) && n.fates == s.fates[s.pending[k].intr := fate]
    requires n.intrs == s.intrs && n.issued == s.issued + {r}
    requires r in n.reqs && n.reqs == s.reqs[r := n.reqs[r]]
    requires fate == AnsweredAgain || (fate == Matched(r) && n.reqs[r].interrupted)
    ensures FatesOk(n)
  {
    hide WaitsOk, DropAt;
    WaitAt(s.pending, s.fates, k);
    DropFate(s.pending, s.fates, n.fates, k, fate);
    forall i | i in n.fates ensures FateOk(n, i) {
      assert FateOk(s, i);
    }
  }

  lemma {:induction false} WaitAt(pending: seq<Pending>, fates: map<nat, Fate>, k: nat)
    requires WaitsOk(pending, fates) && k < |pending|
    ensures pending[k].intr in fates && fates[pending[k].intr] == Waits
  {
  }

  lemma {:induction false} ArrivedFates(s: Session, n: Session, r: nat)
    requires FatesOk(s) && ThreadsLive(s) && r !in s.issued && n.pending == s.pending && n.fates == s.fates
    requires n.intrs == s.intrs && n.issued == s.issued + {r} && r in n.reqs && n.reqs == s.reqs[r := n.reqs[r]]
    ensures FatesOk(n)
  {
    forall i | i in n.fates ensures FateOk(n, i) {
      assert FateOk(s, i);
    }
  }

  /** Taking an interrupt off the waiting list gives it a new fate and changes no other. */
  lemma {:induction false} DropFate(
      pending: seq<Pending>, fates: map<nat, Fate>, fates': map<nat, Fate>, k: nat, fate: Fate)
    requires k < |pending| && fates' == fates[pending[k].intr := fate] && !fate.Waits?
    requires forall i, j :: 0 <= i < j < |pending| ==> pending[i].intr != pending[j].intr
    requires WaitsOk(pending, fates)
    ensures WaitsOk(DropAt(pending, k), fates')
  {
    var rest := DropAt(pending, k);
    forall i | 0 <= i < |rest| ensures rest[i].intr in fates' && fates'[rest[i].intr] == Waits {
      assert rest[i] == pending[if i < k then i else i + 1];
    }
    forall i | i in fates' && fates'[i] == Waits ensures exists k :: 0 <= k < |rest| && rest[k].intr == i {
      var j :| 0 <= j < |pending| && pending[j].intr == i;
      assert rest[if j < k then j else j - 1].intr == i;
    }
  }

  /** Only the reference count of `r` and the thread table changed, by one new thread at its start. */
  lemma {:induction false} TouchCount(s: Session, n: Session, r: nat, i: nat)
    requires r in s.reqs && ReqOk(s, r) && r in s.list && i !in s.intrs
    requires n.reqs == s.reqs[r := s.reqs[r].(refs := s.reqs[r].refs + 1)] && n.handlers == s.handlers
    requires n.list == s.list
    requires n.intrs == s.intrs[i := Found(r)]
    ensures ReqOk(n, r)
  {
    ReferrersAdd(s.intrs, i, Found(r), r);
    CallKept(s, n, r);
  }

  /** Threads about to call keep being about to call as long as they are where they were. */
  lemma {:induction false} CallKept(s: Session, n: Session, r: nat)
    requires r in s.handlers ==> r in n.handlers && n.handlers[r] == s.handlers[r]
    requires forall t :: t in s.intrs && s.intrs[t].req == r && s.intrs[t].Marked? ==>
        t in n.intrs && n.intrs[t] == s.intrs[t]
    ensures forall f :: AboutToCall(s, r, f) ==> AboutToCall(n, r, f)
  {
    forall f | AboutToCall(s, r, f) ensures AboutToCall(n, r, f) {
      if !(r in s.handlers && s.handlers[r] == RegSet(Some(f))) {
        var t :| t in s.intrs && s.intrs[t] == Marked(r, Some(f));
        assert n.intrs[t] == Marked(r, Some(f));
      }
    }
  }

  lemma {:induction false} TakeShape(s: Session, i: nat, target: nat, n: Session)
    requires ThreadsLive(s) && n == TakeInterrupt(s, i, target)
    ensures n.list == s.list && n.handlers == s.handlers && n.issued == s.issued && n.targets == s.targets[i := target]
    ensures match FindInFlight(s.list, s.reqs, target)
      case Some(r) =>
        && n.reqs == s.reqs[r := s.reqs[r].(refs := s.reqs[r].refs + 1)] && n.intrs == s.intrs[i := Found(r)]
        && n.fates == s.fates[i := Delivering(r)] && n.pending == s.pending
      case None =>
        && n.reqs == s.reqs && n.intrs == s.intrs
        && match FindPending(s.pending, target)
           case Some(k) => n.pending == s.pending && n.fates == s.fates[i := Duplicate(s.pending[k].intr)]
           case None => n.pending == s.pending + [Pending(i, target)] && n.fates == s.fates[i := Waits]
  {
    hide FindInFlight, FindPending;
  }

  lemma {:induction false} InterruptKeeps(s: Session, i: nat, target: nat)
    requires Inv(s) && Enabled(s, Interrupt(i, target))
    ensures Inv(TakeInterrupt(s, i, target))
  {
    hide ReqOk, FatesOk, ListsApart, FindInFlight, FindPending, TakeInterrupt;
    var hit := FindInFlight(s.list, s.reqs, target);
    var n := TakeInterrupt(s, i, target);
    TakeShape(s, i, target, n);
    InterruptFates(s, i, target);
    InterruptLists(s, n, i, target);
    if hit.Some? {
      assert ReqOk(s, hit.value);
      TouchCount(s, n, hit.value, i);
      forall x | x in n.reqs && x != hit.value ensures ReqOk(n, x) {
        assert ReqOk(s, x);
        SameReq(s, n, x);
      }
    } else {
      forall x | x in n.reqs ensures ReqOk(n, x) {
        assert ReqOk(s, x);
        SameReq(s, n, x);
      }
    }
  }

  lemma {:induction false} InterruptFates(s: Session, i: nat, target: nat)
    requires ThreadsLive(s) && FatesOk(s) && i !in s.fates && i !in s.intrs
    ensures FatesOk(TakeInterrupt(s, i, target))
  {
    hide WaitsOk, FindInFlight, FindPending, TakeInterrupt;
    var n := TakeInterrupt(s, i, target);
    TakeShape(s, i, target, n);
    AddWait(s.pending, s.fates, i, target);
    AddFate(s.pending, s.fates, i, n.fates[i]);
    forall k | k in n.fates ensures FateOk(n, k) {
      if k in s.fates { assert FateOk(s, k); }
    }
  }

  lemma {:induction false} InterruptLists(s: Session, n: Session, i: nat, target: nat)
    requires ThreadsLive(s) && ListsApart(s) && FatesOk(s) && i !in s.fates && n.list == s.list
    requires forall x :: x in s.list ==> x in n.reqs && n.reqs[x].unique == s.reqs[x].unique
    requires n.pending == s.pending || (n.pending == s.pending + [Pending(i, target)] &&
               FindInFlight(s.list, s.reqs, target).None? && FindPending(s.pending, target).None?)
    ensures ListsApart(n)
  {
    forall a, b | 0 <= a < b < |n.pending|
      ensures n.pending[a].target != n.pending[b].target && n.pending[a].intr != n.pending[b].intr
    {
      assert n.pending[a] == s.pending[a];
    }
  }

  lemma {:induction false} AddWait(pending: seq<Pending>, fates: map<nat, Fate>, i: nat, target: nat)
    requires WaitsOk(pending, fates) && i !in fates
    ensures WaitsOk(pending + [Pending(i, target)], fates[i := Waits])
  {
    var p, f := pending + [Pending(i, target)], fates[i := Waits];
    forall j | j in f && f[j] == Waits ensures exists k :: 0 <= k < |p| && p[k].intr == j {
      if j == i {
        assert p[|pending|].intr == i;
      } else {
        var k :| 0 <= k < |pending| && pending[k].intr == j;
        assert p[k].intr == j;
      }
    }
  }

  lemma {:induction false} AddFate(pending: seq<Pending>, fates: map<nat, Fate>, i: nat, fate: Fate)
    requires WaitsOk(pending, fates) && (i in fates ==> fates[i] != Waits)
    ensures !fate.Waits? ==> WaitsOk(pending, fates[i := fate])
  {
  }

  /** A step of one thread on one request: everything about the other requests is as before. */
  lemma {:induction false} OneReqStep(s: Session, n: Session, r: nat)
    requires Inv(s) && r in s.reqs && r in n.reqs && ReqOk(n, r)
    requires n.reqs.Keys == s.reqs.Keys && n.handlers.Keys == s.handlers.Keys && n.intrs.Keys == s.intrs.Keys
    requires n.list == s.list && n.pending == s.pending && n.issued == s.issued
    requires forall x :: x in s.reqs && x != r ==> n.reqs[x] == s.reqs[x]
    requires forall x :: x in s.handlers && x != r ==> n.handlers[x] == s.handlers[x]
    requires forall t :: t in s.intrs && s.intrs[t].req != r ==> n.intrs[t] == s.intrs[t]
    requires forall t :: t in s.intrs && s.intrs[t].req == r ==> n.intrs[t].req == r
    requires n.reqs[r].unique == s.reqs[r].unique && FatesOk(n)
    ensures Inv(n)
  {
    hide ReqOk, FatesOk;
    forall x | x in n.reqs && x != r ensures ReqOk(n, x) {
      assert ReqOk(s, x);
      SameReq(s, n, x);
    }
  }

  /** Fates across a step that gives no interrupt a new fate and moves no thread that is still on its way
      to a request it has to mark. */
  lemma {:induction false} FatesFrame(s: Session, n: Session)
    requires FatesOk(s) && n.fates == s.fates && n.pending == s.pending && s.issued <= n.issued
    requires forall t :: t in n.intrs ==> t in s.intrs && Underway(n.intrs[t]) == Underway(s.intrs[t])
    requires forall t :: t in s.intrs && Underway(s.intrs[t]).Delivering? ==> t in n.intrs
    requires forall r :: r in n.reqs && r in s.reqs && s.reqs[r].interrupted ==> n.reqs[r].interrupted
    requires n.reqs.Keys <= s.reqs.Keys
    ensures FatesOk(n)
  {
    hide WaitsOk;
    forall i | i in n.fates ensures FateOk(n, i) {
      assert FateOk(s, i);
    }
  }

  /** A thread that delivers an interrupt moves on while request `r` gets the record `q`. */
  ghost predicate IntrMoves(s: Session, n: Session, t: nat, r: nat, pc: IntrPc, q: Req) {
    && r in s.reqs && ReqOk(s, r) && t in s.intrs && s.intrs[t].req == r && pc.req == r
    && n.reqs == s.reqs[r := q] && n.intrs == s.intrs[t := pc] && n.handlers == s.handlers && n.list == s.list
  }

  lemma {:induction false} IntrLockReq(s: Session, n: Session, t: nat, r: nat)
    requires r in s.reqs && IntrMoves(s, n, t, r, Locked(r), s.reqs[r].(holder := Some(Interrupter(t))))
    requires s.intrs[t].Found? && s.reqs[r].holder.None?
    ensures ReqOk(n, r)
  {
    ReferrersSame(s.intrs, t, Locked(r), r);
    CallKept(s, n, r);
  }

  lemma {:induction false} IntrLockKeeps(s: Session, t: nat)
    requires Inv(s) && Enabled(s, IntrLock(t))
    ensures Inv(Next(s, IntrLock(t)))
  {
    hide ReqOk, FatesOk, ListsApart;
    var n, r := Next(s, IntrLock(t)), s.intrs[t].req;
    assert ReqOk(s, r);
    IntrLockReq(s, n, t, r);
    FatesFrame(s, n);
    OneReqStep(s, n, r);
  }

  lemma {:induction false} IntrMarkReq(s: Session, n: Session, t: nat, r: nat)
    requires r in s.reqs && IntrMoves(s, n, t, r, Marked(r, s.reqs[r].func), s.reqs[r].(interrupted := true))
    requires s.intrs[t].Locked?
    ensures ReqOk(n, r)
  {
    ReferrersSame(s.intrs, t, Marked(r, s.reqs[r].func), r);
    assert n.intrs[t] == Marked(r, s.reqs[r].func);
  }

  lemma {:induction false} IntrMarkKeeps(s: Session, t: nat)
    requires Inv(s) && Enabled(s, IntrMark(t))
    ensures Inv(Next(s, IntrMark(t)))
  {
    hide ReqOk, FatesOk, ListsApart;
    var n, r := Next(s, IntrMark(t)), s.intrs[t].req;
    assert ReqOk(s, r);
    IntrMarkReq(s, n, t, r);
    MarkFates(s, n, t, r);
    OneReqStep(s, n, r);
  }

  lemma {:induction false} MarkFates(s: Session, n: Session, t: nat, r: nat)
    requires ThreadsLive(s) && FatesOk(s) && t in s.intrs && s.intrs[t] == Locked(r) && r in s.reqs
    requires n.fates == s.fates[t := Delivered(r)] && n.pending == s.pending && n.issued == s.issued
    requires n.intrs == s.intrs[t := Marked(r, s.reqs[r].func)]
    requires n.reqs == s.reqs[r := s.reqs[r].(interrupted := true)]
    ensures FatesOk(n)
  {
    hide WaitsOk;
    AddFate(s.pending, s.fates, t, Delivered(r));
    forall i | i in n.fates ensures FateOk(n, i) {
      if i in s.fates { assert FateOk(s, i); }
    }
  }

  lemma {:induction false} IntrUnlockReq(s: Session, n: Session, t: nat, r: nat, copy: Option<nat>)
    requires r in s.reqs && t in s.intrs && s.intrs[t] == Marked(r, copy)
    requires IntrMoves(s, n, t, r, Dropping(r),
               s.reqs[r].(holder := None, called := s.reqs[r].called + (if copy.Some? then {copy.value} else {})))
    ensures ReqOk(n, r)
  {
    ReferrersSame(s.intrs, t, Dropping(r), r);
    forall f | AboutToCall(s, r, f) ensures f in n.reqs[r].called {
      OneMarked(s, r, t, f);
    }
  }

  lemma {:induction false} IntrUnlockKeeps(s: Session, t: nat)
    requires Inv(s) && Enabled(s, IntrUnlock(t))
    ensures Inv(Next(s, IntrUnlock(t)))
  {
    hide ReqOk, FatesOk, ListsApart, Arrived, TakeInterrupt, Without;
    var n, r := Next(s, IntrUnlock(t)), s.intrs[t].req;
    assert ReqOk(s, r);
    IntrUnlockReq(s, n, t, r, s.intrs[t].copy);
    FatesFrame(s, n);
    OneReqStep(s, n, r);
  }

  /** The only thread about to call while an interrupter has the mutex is that interrupter. */
  lemma {:induction false} OneMarked(s: Session, r: nat, t: nat, f: nat)
    requires r in s.reqs && Guarded(s, r) && t in s.intrs && s.intrs[t].req == r && s.intrs[t].Marked?
    requires AboutToCall(s, r, f)
    ensures s.intrs[t].copy == Some(f)
  {
    if !(r in s.handlers && s.handlers[r] == RegSet(Some(f))) {
      var u :| u in s.intrs && s.intrs[u] == Marked(r, Some(f));
      assert s.reqs[r].holder == Some(Interrupter(u));
    }
  }

  /** The handler of request `r` moves on while the request gets the record `q`. */
  ghost predicate HandlerMoves(s: Session, n: Session, r: nat, pc: HandlerPc, q: Req) {
    && r in s.reqs && ReqOk(s, r) && r in s.handlers
    && n.reqs == s.reqs[r := q] && n.intrs == s.intrs && n.handlers == s.handlers[r := pc] && n.list == s.list
  }

  /** A handler that enters, stores, runs or leaves in turn keeps its request good. */
  lemma {:induction false} RegLockReq(s: Session, n: Session, r: nat, func: Option<nat>)
    requires r in s.reqs && HandlerMoves(s, n, r, RegHeld(func), s.reqs[r].(holder := Some(Handler)))
    requires s.handlers[r].Running? && s.reqs[r].holder.None?
    ensures ReqOk(n, r)
  {
    forall f | AboutToCall(s, r, f) ensures AboutToCall(n, r, f) {
      var t :| t in s.intrs && s.intrs[t] == Marked(r, Some(f));
      assert n.intrs[t] == Marked(r, Some(f));
    }
  }

  lemma {:induction false} RegStoreReq(s: Session, n: Session, r: nat, func: Option<nat>)
    requires r in s.reqs && HandlerMoves(s, n, r, RegSet(func), s.reqs[r].(func := func)) && s.handlers[r].RegHeld?
    ensures ReqOk(n, r)
  {
    assert s.reqs[r].holder == Some(Handler);
    assert n.handlers[r] == RegSet(func);
  }

  lemma {:induction false} RegTestReq(s: Session, n: Session, r: nat, f: nat)
    requires r in s.reqs && HandlerMoves(s, n, r, RegCalled(f), s.reqs[r].(called := s.reqs[r].called + {f}))
    requires s.handlers[r] == RegSet(Some(f))
    ensures ReqOk(n, r)
  {
  }

  lemma {:induction false} RegUnlockReq(s: Session, n: Session, r: nat)
    requires r in s.reqs && HandlerMoves(s, n, r, Running, s.reqs[r].(holder := None))
    requires s.handlers[r].RegCalled? || (s.handlers[r].RegSet? && !(s.reqs[r].interrupted && s.handlers[r].func.Some?))
    ensures ReqOk(n, r)
  {
  }

  lemma {:induction false} RegLockKeeps(s: Session, r: nat, func: Option<nat>)
    requires Inv(s) && Enabled(s, RegLock(r, func))
    ensures Inv(Next(s, RegLock(r, func)))
  {
    hide ReqOk, FatesOk, ListsApart;
    var n := Next(s, RegLock(r, func));
    assert ReqOk(s, r);
    RegLockReq(s, n, r, func);
    FatesFrame(s, n);
    OneReqStep(s, n, r);
  }

  lemma {:induction false} RegStoreKeeps(s: Session, r: nat)
    requires Inv(s) && Enabled(s, RegStore(r))
    ensures Inv(Next(s, RegStore(r)))
  {
    hide ReqOk, FatesOk, ListsApart;
    var n := Next(s, RegStore(r));
    assert ReqOk(s, r);
    RegStoreReq(s, n, r, s.handlers[r].func);
    FatesFrame(s, n);
    OneReqStep(s, n, r);
  }

  lemma {:induction false} RegTestKeeps(s: Session, r: nat)
    requires Inv(s) && Enabled(s, RegTest(r))
    ensures Inv(Next(s, RegTest(r)))
  {
    hide ReqOk, FatesOk, ListsApart;
    var n := Next(s, RegTest(r));
    assert ReqOk(s, r);
    RegTestReq(s, n, r, s.handlers[r].func.value);
    FatesFrame(s, n);
    OneReqStep(s, n, r);
  }

  lemma {:induction false} RegUnlockKeeps(s: Session, r: nat)
    requires Inv(s) && Enabled(s, RegUnlock(r))
    ensures Inv(Next(s, RegUnlock(r)))
  {
    hide ReqOk, FatesOk, ListsApart;
    var n := Next(s, RegUnlock(r));
    assert ReqOk(s, r);
    RegUnlockReq(s, n, r);
    FatesFrame(s, n);
    OneReqStep(s, n, r);
  }

  /** Steps that take a request off a list or out of the map: the other requests are as before. */
  lemma {:induction false} OthersKept(s: Session, n: Session, r: nat)
    requires Inv(s) && (r in n.reqs ==> ReqOk(n, r)) && ThreadsLive(n) && FatesOk(n)
    requires n.reqs.Keys <= s.reqs.Keys && n.pending == s.pending
    requires forall x :: x in n.reqs && x != r ==> n.reqs[x] == s.reqs[x]
    requires forall x :: x != r ==> (x in s.handlers <==> x in n.handlers) && (x in s.list <==> x in n.list)
    requires forall x :: x in n.handlers && x != r ==> n.handlers[x] == s.handlers[x]
    requires forall t :: t in s.intrs && s.intrs[t].req != r ==> t in n.intrs && n.intrs[t] == s.intrs[t]
    requires forall t :: t in n.intrs ==> t in s.intrs && n.intrs[t] == s.intrs[t]
    requires r in n.list ==> r in n.reqs && r in s.list && n.reqs[r].unique == s.reqs[r].unique
    ensures Inv(n)
  {
    hide ReqOk, FatesOk;
    forall x | x in n.reqs && x != r ensures ReqOk(n, x) {
      assert ReqOk(s, x);
      SameReq(s, n, x);
    }
  }

  lemma {:induction false} IntrDropReq(s: Session, n: Session, t: nat, r: nat)
    requires r in s.reqs && ReqOk(s, r) && t in s.intrs && s.intrs[t] == Dropping(r) && s.reqs[r].refs > 1
    requires n.reqs == s.reqs[r := s.reqs[r].(refs := s.reqs[r].refs - 1)] && n.intrs == s.intrs - {t}
    requires n.handlers == s.handlers && n.list == s.list
    ensures ReqOk(n, r)
  {
    ReferrersRemove(s.intrs, t, r);
    CallKept(s, n, r);
  }

  lemma {:induction false} DropShape(s: Session, t: nat, r: nat, n: Session)
    requires ThreadsLive(s) && Enabled(s, IntrDrop(t)) && n == Next(s, IntrDrop(t)) && r == s.intrs[t].req
    ensures s.intrs[t] == Dropping(r) && n.intrs == s.intrs - {t} && n.handlers == s.handlers && n.list == s.list
    ensures n.pending == s.pending && n.fates == s.fates && n.issued == s.issued
    ensures s.reqs[r].refs <= 1 ==> n.reqs == s.reqs - {r}
    ensures s.reqs[r].refs > 1 ==> n.reqs == s.reqs[r := s.reqs[r].(refs := s.reqs[r].refs - 1)]
  {
  }

  lemma {:induction false} IntrDropKeeps(s: Session, t: nat)
    requires Inv(s) && Enabled(s, IntrDrop(t))
    ensures Inv(Next(s, IntrDrop(t)))
  {
    hide ReqOk, FatesOk, ListsApart;
    var n, r := Next(s, IntrDrop(t)), s.intrs[t].req;
    DropShape(s, t, r, n);
    hide Inv, Next;
    DropInv(s, n, t, r);
  }

  lemma {:induction false} DropInv(s: Session, n: Session, t: nat, r: nat)
    requires Inv(s) && t in s.intrs && s.intrs[t] == Dropping(r) && r in s.reqs
    requires n.intrs == s.intrs - {t} && n.handlers == s.handlers && n.list == s.list
    requires n.pending == s.pending && n.fates == s.fates && n.issued == s.issued
    requires s.reqs[r].refs <= 1 ==> n.reqs == s.reqs - {r}
    requires s.reqs[r].refs > 1 ==> n.reqs == s.reqs[r := s.reqs[r].(refs := s.reqs[r].refs - 1)]
    ensures Inv(n)
  {
    hide ReqOk, FatesOk, ListsApart;
    assert ReqOk(s, r);
    if s.reqs[r].refs > 1 {
      IntrDropReq(s, n, t, r);
    } else {
      OkCounted(s, r);
      LastReferrer(s, r, t);
    }
    assert ThreadsLive(n);
    FatesFrame(s, n);
    hide ThreadsLive;
    OthersKept(s, n, r);
  }

  lemma {:induction false} OkCounted(s: Session, r: nat)
    requires r in s.reqs && ReqOk(s, r)
    ensures Counted(s, r)
  {
  }

  /** When a delivering thread drops the last reference, nobody else knows the request. */
  lemma {:induction false} LastReferrer(s: Session, r: nat, t: nat)
    requires r in s.reqs && Counted(s, r) && t in s.intrs && s.intrs[t].req == r && s.reqs[r].refs <= 1
    ensures r !in s.handlers && r !in s.list
    ensures forall u :: u in s.intrs && s.intrs[u].req == r ==> u == t
  {
    assert t in Referrers(s.intrs, r);
    forall u | u in s.intrs && s.intrs[u].req == r ensures u == t {
      if u != t {
        SubsetSize({u, t}, Referrers(s.intrs, r));
      }
    }
  }

  lemma {:induction false} Unreferred(s: Session, r: nat)
    requires r in s.reqs && Counted(s, r) && r in s.handlers && s.handlers[r].Destroying?
    ensures r !in s.list && forall t :: t in s.intrs ==> s.intrs[t].req != r
  {
    forall t | t in s.intrs ensures s.intrs[t].req != r {
      assert s.intrs[t].req == r ==> t in Referrers(s.intrs, r);
    }
  }

  lemma {:induction false} ReplyReq(s: Session, n: Session, r: nat)
    requires r in s.reqs && ReqOk(s, r) && r in s.handlers && s.handlers[r].Running? && s.reqs[r].refs > 0
    requires n.reqs == s.reqs[r := s.reqs[r].(func := None, refs := s.reqs[r].refs - 1)] && n.intrs == s.intrs
    requires r !in n.list
    requires n.handlers == if s.reqs[r].refs == 1 then s.handlers[r := Destroying] else s.handlers - {r}
    ensures ReqOk(n, r)
  {
  }

  lemma {:induction false} ReplyShape(s: Session, r: nat, n: Session)
    requires ThreadsLive(s) && Enabled(s, Reply(r)) && s.reqs[r].refs > 0 && n == Next(s, Reply(r))
    ensures n.reqs == s.reqs[r := s.reqs[r].(func := None, refs := s.reqs[r].refs - 1)]
    ensures n.handlers == if s.reqs[r].refs == 1 then s.handlers[r := Destroying] else s.handlers - {r}
    ensures n.intrs == s.intrs && n.pending == s.pending && n.fates == s.fates && n.issued == s.issued
    ensures n.list == Without(s.list, r)
  {
  }

  lemma {:induction false} ReplyKeeps(s: Session, r: nat)
    requires Inv(s) && Enabled(s, Reply(r))
    ensures Inv(Next(s, Reply(r)))
  {
    hide ReqOk, FatesOk, ListsApart;
    var n := Next(s, Reply(r));
    assert ReqOk(s, r);
    OkCounted(s, r);
    ReplyShape(s, r, n);
    hide Next, Without;
    ReplyReq(s, n, r);
    FatesFrame(s, n);
    OthersKept(s, n, r);
  }

  lemma {:induction false} DestroyKeeps(s: Session, r: nat)
    requires Inv(s) && Enabled(s, Destroy(r))
    ensures Inv(Next(s, Destroy(r)))
  {
    hide FatesOk, ListsApart, ReqOk;
    var n := Next(s, Destroy(r));
    assert ReqOk(s, r);
    OkCounted(s, r);
    Unreferred(s, r);
    FatesFrame(s, n);
    OthersKept(s, n, r);
  }

  /** Every step keeps the invariant. */
  lemma {:induction false} StepKeeps(s: Session, step: Step)
    requires Inv(s) && Enabled(s, step)
    ensures Inv(Next(s, step))
  {
    hide Inv;
    match step
    case Arrive(r, unique) => ArriveKeeps(s, r, unique);
    case Interrupt(i, target) => InterruptKeeps(s, i, target);
    case IntrLock(t) => IntrLockKeeps(s, t);
    case IntrMark(t) => IntrMarkKeeps(s, t);
    case IntrUnlock(t) => IntrUnlockKeeps(s, t);
    case IntrDrop(t) => IntrDropKeeps(s, t);
    case RegLock(r, func) => RegLockKeeps(s, r, func);
    case RegStore(r) => RegStoreKeeps(s, r);
    case RegTest(r) => RegTestKeeps(s, r);
    case RegUnlock(r) => RegUnlockKeeps(s, r);
    case Reply(r) => ReplyKeeps(s, r);
    case Destroy(r) => DestroyKeeps(s, r);
  }

  // ---------------------------------------------------------------- which request an interrupt is about

  /** An interrupt that was first in line for its number, and what may have become of it. */
  predicate Queued(fate: Fate) {
    fate.Waits? || fate.Matched? || fate.AnsweredAgain?
  }

  /** The record of an interrupt is about the request it names; a duplicate is one of an interrupt for the same
      number that waits or has waited. */
  ghost predicate RecordOk(s: Session, i: nat)
    requires i in s.fates
  {
    i in s.targets &&
    match s.fates[i]
    case Delivering(r) => r in s.issued && (r in s.reqs ==> s.reqs[r].unique == s.targets[i])
    case Delivered(r) => r in s.issued && (r in s.reqs ==> s.reqs[r].unique == s.targets[i])
    case Matched(r) => r in s.issued && (r in s.reqs ==> s.reqs[r].unique == s.targets[i])
    case Waits => true
    case Duplicate(of) => of in s.fates && of in s.targets && s.targets[of] == s.targets[i] && Queued(s.fates[of])
    case AnsweredAgain => true
  }

  ghost predicate Recorded(s: Session) {
    && (forall i :: i in s.fates ==> RecordOk(s, i))
    && (forall k :: 0 <= k < |s.pending| ==>
         s.pending[k].intr in s.targets && s.targets[s.pending[k].intr] == s.pending[k].target)
  }

  /** A step that gives no interrupt a new record. */
  lemma {:induction false} RecordsFrame(s: Session, n: Session)
    requires Recorded(s) && n.fates == s.fates && n.targets == s.targets && n.pending == s.pending
    requires n.issued == s.issued && n.reqs.Keys <= s.reqs.Keys
    requires forall r :: r in n.reqs ==> n.reqs[r].unique == s.reqs[r].unique
    ensures Recorded(n)
  {
    forall i | i in n.fates ensures RecordOk(n, i) {
      assert RecordOk(s, i);
    }
  }

  lemma {:induction false} MarkRecords(s: Session, t: nat, n: Session)
    requires Recorded(s) && FatesOk(s) && ThreadsLive(s) && Enabled(s, IntrMark(t)) && n == Next(s, IntrMark(t))
    ensures Recorded(n)
  {
    hide WaitsOk, Arrived, TakeInterrupt;
    forall i | i in n.fates ensures RecordOk(n, i) {
      assert RecordOk(s, i);
    }
  }

  lemma {:induction false} InterruptRecords(s: Session, i: nat, target: nat)
    requires Recorded(s) && FatesOk(s) && ThreadsLive(s) && i !in s.fates
    ensures Recorded(TakeInterrupt(s, i, target))
  {
    hide FindPending, FindInFlight, FateOk, TakeInterrupt;
    var n := TakeInterrupt(s, i, target);
    TakeShape(s, i, target, n);
    forall k | 0 <= k < |n.pending|
      ensures n.pending[k].intr in n.targets && n.targets[n.pending[k].intr] == n.pending[k].target
    {
      if k < |s.pending| {
        WaitAt(s.pending, s.fates, k);
        assert n.pending[k] == s.pending[k];
      }
    }
    var hit := FindPending(s.pending, target);
    if hit.Some? { WaitAt(s.pending, s.fates, hit.value); }
    hide WaitsOk;
    forall j | j in n.fates ensures RecordOk(n, j) {
      if j != i { assert RecordOk(s, j); }
    }
  }

  /** As request `r` arrives the k-th waiting interrupt leaves the list, with a new record. */
  lemma {:induction false} RerecordArrived(s: Session, n: Session, r: nat, k: nat, fate: Fate)
    requires Recorded(s) && FatesOk(s) && ThreadsLive(s) && k < |s.pending| && r !in s.issued
    requires n.pending == DropAt(s.pending, k) && n.fates == s.fates[s.pending[k].intr := fate]
    requires n.targets == s.targets && n.issued == s.issued + {r} && r in n.reqs && n.reqs == s.reqs[r := n.reqs[r]]
    requires fate == AnsweredAgain || (fate == Matched(r) && n.reqs[r].unique == s.pending[k].target)
    ensures Recorded(n)
  {
    WaitAt(s.pending, s.fates, k);
    hide FatesOk;
    forall i | i in n.fates ensures RecordOk(n, i) {
      assert RecordOk(s, i);
    }
    forall j | 0 <= j < |n.pending|
      ensures n.pending[j].intr in n.targets && n.targets[n.pending[j].intr] == n.pending[j].target
    {
      assert n.pending[j] == s.pending[if j < k then j else j + 1];
    }
  }

  lemma {:induction false} ArriveRecords(s: Session, r: nat, unique: nat)
    requires Recorded(s) && FatesOk(s) && ThreadsLive(s) && r !in s.issued
    ensures Recorded(Arrived(s, r, unique))
  {
    var n := Arrived(s, r, unique);
    var hit := FindPending(s.pending, unique);
    if hit.None? && s.pending != [] {
      assert s.pending[1..] == DropAt(s.pending, 0);
    }
    hide FatesOk, FindPending, DropAt, Recorded;
    if hit.Some? {
      RerecordArrived(s, n, r, hit.value, Matched(r));
    } else if s.pending != [] {
      RerecordArrived(s, n, r, 0, AnsweredAgain);
    } else {
      ArrivedRecords(s, n, r);
    }
  }

  lemma {:induction false} ArrivedRecords(s: Session, n: Session, r: nat)
    requires Recorded(s) && ThreadsLive(s) && r !in s.issued && n.pending == s.pending && n.fates == s.fates
    requires n.targets == s.targets && n.issued == s.issued + {r} && r in n.reqs && n.reqs == s.reqs[r := n.reqs[r]]
    ensures Recorded(n)
  {
    forall i | i in n.fates ensures RecordOk(n, i) {
      assert RecordOk(s, i);
    }
  }

  lemma {:induction false} StepRecords(s: Session, step: Step)
    requires Inv(s) && Recorded(s) && Enabled(s, step)
    ensures Recorded(Next(s, step))
  {
    hide Recorded, FatesOk, ListsApart, ReqOk, Arrived, TakeInterrupt;
    var n := Next(s, step);
    if step.Arrive? {
      ArriveRecords(s, step.req, step.unique);
    } else if step.Interrupt? {
      InterruptRecords(s, step.intr, step.target);
    } else if step.IntrMark? {
      MarkRecords(s, step.intr, n);
    } else {
      OtherSteps(s, step, n);
      OtherNumbers(s, step, n);
      hide Next, Enabled, ThreadsLive;
      RecordsFrame(s, n);
    }
  }

  /** The other steps leave records and numbers alone. */
  lemma {:induction false} OtherSteps(s: Session, step: Step, n: Session)
    requires ThreadsLive(s) && Enabled(s, step) && n == Next(s, step)
    requires !step.Arrive? && !step.Interrupt? && !step.IntrMark?
    ensures n.fates == s.fates && n.targets == s.targets && n.pending == s.pending && n.issued == s.issued
  {
    hide Arrived, TakeInterrupt, Without;
  }

  /** A step of a delivering thread changes, or destroys, only the request it works on, and keeps its number. */
  lemma {:induction false} IntrNumbers(s: Session, step: Step, n: Session)
    requires ThreadsLive(s) && Enabled(s, step) && n == Next(s, step)
    requires step.IntrLock? || step.IntrMark? || step.IntrUnlock? || step.IntrDrop?
    ensures n.reqs.Keys <= s.reqs.Keys && forall r :: r in n.reqs ==> n.reqs[r].unique == s.reqs[r].unique
  {
    hide Arrived, TakeInterrupt, Without, ThreadsLive;
    var r := s.intrs[step.intr].req;
    assert r in n.reqs ==> n.reqs == s.reqs[r := n.reqs[r]] && n.reqs[r].unique == s.reqs[r].unique;
    assert r !in n.reqs ==> n.reqs == s.reqs - {r};
  }

  /** And so does a step of a handler. */
  lemma {:induction false} OtherNumbers(s: Session, step: Step, n: Session)
    requires ThreadsLive(s) && Enabled(s, step) && n == Next(s, step) && !step.Arrive? && !step.Interrupt?
    ensures n.reqs.Keys <= s.reqs.Keys && forall r :: r in n.reqs ==> n.reqs[r].unique == s.reqs[r].unique
  {
    hide Arrived, TakeInterrupt, Without, ThreadsLive;
    if step.IntrLock? || step.IntrMark? || step.IntrUnlock? || step.IntrDrop? {
      IntrNumbers(s, step, n);
    } else {
      var r := step.req;
      assert r in n.reqs ==> n.reqs == s.reqs[r := n.reqs[r]] && n.reqs[r].unique == s.reqs[r].unique;
      assert r !in n.reqs ==> n.reqs == s.reqs - {r};
    }
  }

  // ---------------------------------------------------------------- nothing happens without a cause

  /** An interrupt has marked the request. */
  ghost predicate MarkedBy(s: Session, i: nat, r: nat) {
    i in s.fates && (s.fates[i] == Delivered(r) || s.fates[i] == Matched(r))
  }

  /** A marked request was named by an interrupt, and a callback ran only for a marked one. */
  ghost predicate Justified(s: Session) {
    && (forall r :: r in s.reqs && s.reqs[r].interrupted ==> exists i :: MarkedBy(s, i, r))
    && (forall r :: r in s.reqs && s.reqs[r].called != {} ==> s.reqs[r].interrupted)
  }

  /** The records of interrupts that have marked a request are as they were. */
  ghost predicate KeepsMarks(s: Session, n: Session) {
    forall j :: j in s.fates && (s.fates[j].Delivered? || s.fates[j].Matched?) ==>
      j in n.fates && n.fates[j] == s.fates[j]
  }

  lemma {:induction false} MarksStay(s: Session, n: Session, i: nat, r: nat)
    requires MarkedBy(s, i, r)
    requires KeepsMarks(s, n)
    ensures MarkedBy(n, i, r)
  {
  }

  /** A step that keeps the records of what has marked, and marks no request. */
  lemma {:induction false} JustifiedFrame(s: Session, n: Session, x: nat)
    requires Justified(s)
    requires KeepsMarks(s, n)
    requires forall r :: r in n.reqs && r != x ==>
      r in s.reqs && n.reqs[r].interrupted == s.reqs[r].interrupted && n.reqs[r].called == s.reqs[r].called
    requires x in n.reqs ==> (n.reqs[x].interrupted ==> exists i :: MarkedBy(n, i, x))
    requires x in n.reqs ==> (n.reqs[x].called != {} ==> n.reqs[x].interrupted)
    ensures Justified(n)
  {
    forall r | r in n.reqs && r != x && n.reqs[r].interrupted ensures exists i :: MarkedBy(n, i, r) {
      var i :| MarkedBy(s, i, r);
      MarksStay(s, n, i, r);
    }
  }

  /** The request a step of a thread works on. */
  function Subject(s: Session, step: Step): nat
    requires step.IntrLock? || step.IntrMark? || step.IntrUnlock? || step.IntrDrop? ==> step.intr in s.intrs
  {
    match step
    case Interrupt(_, _) => 0
    case IntrLock(t) => s.intrs[t].req
    case IntrMark(t) => s.intrs[t].req
    case IntrUnlock(t) => s.intrs[t].req
    case IntrDrop(t) => s.intrs[t].req
    case _ => step.req
  }

  lemma {:induction false} OtherRequests(s: Session, step: Step, n: Session)
    requires ThreadsLive(s) && Enabled(s, step) && n == Next(s, step) && !step.Arrive? && !step.Interrupt?
    ensures forall r :: r in n.reqs && r != Subject(s, step) ==> r in s.reqs && n.reqs[r] == s.reqs[r]
  {
    hide Arrived, TakeInterrupt, Without, ThreadsLive;
  }

  /** What a step does to the mark and the callbacks of its own request. */
  lemma {:induction false} OwnRequest(s: Session, step: Step, n: Session)
    requires ThreadsLive(s) && Enabled(s, step) && n == Next(s, step) && !step.Arrive? && !step.Interrupt?
    ensures var x := Subject(s, step);
      x in n.reqs ==>
        && x in s.reqs && n.reqs[x].interrupted == (s.reqs[x].interrupted || step.IntrMark?)
        && (step.IntrMark? ==> n.fates == s.fates[step.intr := Delivered(x)])
        && (n.reqs[x].called == s.reqs[x].called || step.IntrUnlock? || (step.RegTest? && s.reqs[x].interrupted))
  {
    hide Arrived, TakeInterrupt, Without, ThreadsLive;
  }

  lemma {:induction false} UnlockMarked(s: Session, t: nat)
    requires FatesOk(s) && Enabled(s, IntrUnlock(t))
    ensures s.reqs[s.intrs[t].req].interrupted
  {
    assert FateOk(s, t);
  }

  lemma {:induction false} StepJustifies(s: Session, step: Step, n: Session)
    requires Inv(s) && Justified(s) && Enabled(s, step) && n == Next(s, step)
    ensures Justified(n)
  {
    hide Justified, FatesOk, ListsApart, ReqOk, Arrived, TakeInterrupt, MarkedBy;
    FatesKept(s, step, n);
    if step.Arrive? {
      ArriveJustifies(s, step.req, step.unique, n);
    } else if step.Interrupt? {
      TakeShape(s, step.intr, step.target, n);
      InterruptJustifies(s, step.intr, step.target, n);
    } else {
      OtherRequests(s, step, n);
      OwnRequest(s, step, n);
      if step.IntrUnlock? { UnlockMarked(s, step.intr); }
      if step.IntrMark? { MarkKept(s, step.intr); }
      OwnJustified(s, step, n);
      hide Next, Enabled, ThreadsLive;
      JustifiedFrame(s, n, Subject(s, step));
    }
  }

  lemma {:induction false} MarkKept(s: Session, t: nat)
    requires FatesOk(s) && t in s.intrs && s.intrs[t].Locked?
    ensures t in s.fates && s.fates[t].Delivering?
  {
  }

  /** No step takes back the record of an interrupt that has marked. */
  lemma {:induction false} FatesKept(s: Session, step: Step, n: Session)
    requires Inv(s) && Enabled(s, step) && n == Next(s, step)
    ensures KeepsMarks(s, n)
  {
    hide Inv, Next, Enabled;
    forall j | j in s.fates && (s.fates[j].Delivered? || s.fates[j].Matched?)
      ensures j in n.fates && n.fates[j] == s.fates[j]
    {
      StepFinal(s, step, j, n);
    }
  }

  lemma {:induction false} OwnJustified(s: Session, step: Step, n: Session)
    requires ThreadsLive(s) && Justified(s) && Enabled(s, step) && n == Next(s, step)
    requires !step.Arrive? && !step.Interrupt?
    requires KeepsMarks(s, n)
    requires var x := Subject(s, step);
      x in n.reqs ==>
        && x in s.reqs && n.reqs[x].interrupted == (s.reqs[x].interrupted || step.IntrMark?)
        && (step.IntrMark? ==> n.fates == s.fates[step.intr := Delivered(x)])
        && (n.reqs[x].called == s.reqs[x].called || step.IntrUnlock? || (step.RegTest? && s.reqs[x].interrupted))
        && (step.IntrUnlock? ==> s.reqs[x].interrupted)
    ensures var x := Subject(s, step); x in n.reqs ==> (n.reqs[x].interrupted ==> exists i :: MarkedBy(n, i, x))
    ensures var x := Subject(s, step); x in n.reqs ==> (n.reqs[x].called != {} ==> n.reqs[x].interrupted)
  {
    var x := Subject(s, step);
    hide Next, Enabled, ThreadsLive;
    if x in n.reqs && n.reqs[x].interrupted {
      if step.IntrMark? {
        assert MarkedBy(n, step.intr, x);
      } else {
        var i :| MarkedBy(s, i, x);
        MarksStay(s, n, i, x);
      }
    }
  }

  lemma {:induction false} ArriveJustifies(s: Session, r: nat, unique: nat, n: Session)
    requires ThreadsLive(s) && Justified(s) && r !in s.issued && n == Arrived(s, r, unique)
    requires KeepsMarks(s, n)
    ensures Justified(n)
  {
    hide Justified, FindPending, DropAt;
    var hit := FindPending(s.pending, unique);
    if hit.Some? {
      assert MarkedBy(n, s.pending[hit.value].intr, r);
    }
    JustifiedFrame(s, n, r);
  }

  lemma {:induction false} InterruptJustifies(s: Session, i: nat, target: nat, n: Session)
    requires ThreadsLive(s) && Justified(s) && n == TakeInterrupt(s, i, target)
    requires KeepsMarks(s, n)
    ensures Justified(n)
  {
    hide FindPending, FindInFlight, TakeInterrupt;
    TakeShape(s, i, target, n);
    forall r | r in n.reqs && n.reqs[r].interrupted ensures exists j :: MarkedBy(n, j, r) {
      var j :| MarkedBy(s, j, r);
      MarksStay(s, n, j, r);
    }
  }

  // ---------------------------------------------------------------- all runs

  ghost function Init(): Session {
    Session(map[], [], [], map[], map[], map[], map[], {})
  }

  /** Where a sequence of steps leads, if each is enabled when its turn comes. */
  ghost function RunFrom(s: Session, steps: seq<Step>): (r: Option<Session>)
    requires Inv(s) && Recorded(s) && Justified(s)
    ensures r.Some? ==> Inv(r.value) && Recorded(r.value) && Justified(r.value)
    decreases |steps|
  {
    if steps == [] then Some(s)
    else if !Enabled(s, steps[0]) then None
    else
      StepKeeps(s, steps[0]);
      StepRecords(s, steps[0]);
      StepJustifies(s, steps[0], Next(s, steps[0]));
      RunFrom(Next(s, steps[0]), steps[1..])
  }

  ghost predicate Reachable(s: Session) {
    exists steps :: RunFrom(Init(), steps) == Some(s)
  }

  /** No use after destruction: in every reachable state every request that a thread still works on, or
      that is on the list, is live; and a live request is known to somebody who will destroy it: its
      handler, or a delivering thread. */
  lemma {:induction false} NoUseAfterDestroy(s: Session)
    requires Reachable(s)
    ensures ThreadsLive(s)
    ensures forall r :: r in s.reqs ==> r in s.handlers || Referrers(s.intrs, r) != {}
  {
    forall r | r in s.reqs ensures r in s.handlers || Referrers(s.intrs, r) != {} {
      assert ReqOk(s, r);
    }
  }

  /** Destroyed once: a step that destroys a request leaves nobody that knows it, and its number is never
      given out again. */
  lemma {:induction false} DestroyedOnce(s: Session, step: Step, r: nat)
    requires Reachable(s) && Inv(s) && Enabled(s, step) && r in s.reqs && r !in Next(s, step).reqs
    ensures var n := Next(s, step);
      r !in n.handlers && r !in n.list && Referrers(n.intrs, r) == {} && r in n.issued
  {
    hide ReqOk, FatesOk, ListsApart, Reachable, Arrived, TakeInterrupt;
    StepKeeps(s, step);
    StepIssues(s, step);
  }

  lemma {:induction false} StepIssues(s: Session, step: Step)
    requires ThreadsLive(s) && Enabled(s, step)
    ensures s.issued <= Next(s, step).issued
  {
    hide FindPending, FindInFlight;
  }

  /** Whenever the session lock is free no request in flight is the target of a waiting interrupt, and
      waiting targets are distinct. */
  lemma {:induction false} InFlightOrPending(s: Session, r: nat, i: nat, j: nat)
    requires Reachable(s) && r in s.list && i < |s.pending| && j < |s.pending|
    ensures r in s.reqs && s.reqs[r].unique != s.pending[i].target
    ensures s.pending[i].target == s.pending[j].target ==> i == j
  {
  }

  /** Every interrupt that was received is accounted for, by what it names: it waits on the list for its number,
      is on its way to the request of that number, has marked that request (which may be gone since), or was a
      duplicate of one for the same number that waits, has been matched or was answered EAGAIN, or was answered
      so itself. */
  lemma {:induction false} InterruptAccounted(s: Session, i: nat)
    requires Reachable(s) && i in s.fates
    ensures i in s.targets
    ensures match s.fates[i]
      case Waits => Pending(i, s.targets[i]) in s.pending
      case Delivering(r) => r in s.reqs && s.reqs[r].unique == s.targets[i] && i in Referrers(s.intrs, r)
      case Delivered(r) => r in s.reqs ==> s.reqs[r].interrupted && s.reqs[r].unique == s.targets[i]
      case Matched(r) => r in s.reqs ==> s.reqs[r].interrupted && s.reqs[r].unique == s.targets[i]
      case Duplicate(of) => of in s.fates && of in s.targets && s.targets[of] == s.targets[i] && Queued(s.fates[of])
      case AnsweredAgain => Pending(i, s.targets[i]) !in s.pending
  {
    hide ReqOk;
    assert FateOk(s, i) && RecordOk(s, i);
  }

  /** Thread `i` has a reference to the request in flight that the interrupt names. */
  ghost predicate TakesReference(s: Session, n: Session, i: nat, target: nat, r: nat) {
    && r in s.list && r in s.reqs && r in n.reqs && s.reqs[r].unique == target
    && i in n.intrs && n.intrs[i] == Found(r) && n.reqs[r] == s.reqs[r].(refs := s.reqs[r].refs + 1)
    && n.pending == s.pending
  }

  /** Exactly one element waits for the number. */
  ghost predicate OneWaits(pending: seq<Pending>, target: nat) {
    exists k :: 0 <= k < |pending| && pending[k].target == target
             && forall j :: 0 <= j < |pending| && pending[j].target == target ==> j == k
  }

  lemma {:induction false} OneWaitsIn(s: Session, k: nat)
    requires ListsApart(s) && k < |s.pending|
    ensures OneWaits(s.pending, s.pending[k].target)
  {
  }

  /** Receiving an interrupt: a request in flight with the number it names gets a thread on its way to mark
      it; otherwise exactly one element waits for that number, this one or an earlier duplicate. */
  lemma {:induction false} InterruptTaken(s: Session, i: nat, target: nat, n: Session)
    requires Reachable(s) && Inv(s) && Enabled(s, Interrupt(i, target)) && n == Next(s, Interrupt(i, target))
    ensures i in n.fates
    ensures n.fates[i].Delivering? <==> exists r :: r in s.list && s.reqs[r].unique == target
    ensures n.fates[i].Delivering? ==> TakesReference(s, n, i, target, n.fates[i].req)
    ensures !n.fates[i].Delivering? ==> n.intrs == s.intrs && n.reqs == s.reqs && OneWaits(n.pending, target)
    ensures n.fates[i] == Waits ==> n.pending == s.pending + [Pending(i, target)]
    ensures n.fates[i] != Waits ==> n.pending == s.pending
  {
    assert n == TakeInterrupt(s, i, target);
    hide Reachable, ReqOk, Next, OneWaits, FatesOk, TakeInterrupt, TakesReference;
    InterruptKeeps(s, i, target);
    TakenShape(s, i, target, n);
  }

  lemma {:induction false} TakenShape(s: Session, i: nat, target: nat, n: Session)
    requires ThreadsLive(s) && n == TakeInterrupt(s, i, target) && ListsApart(n)
    ensures i in n.fates
    ensures n.fates[i].Delivering? <==> exists r :: r in s.list && s.reqs[r].unique == target
    ensures n.fates[i].Delivering? ==> TakesReference(s, n, i, target, n.fates[i].req)
    ensures !n.fates[i].Delivering? ==> n.intrs == s.intrs && n.reqs == s.reqs && OneWaits(n.pending, target)
    ensures n.fates[i] == Waits ==> n.pending == s.pending + [Pending(i, target)]
    ensures n.fates[i] != Waits ==> n.pending == s.pending
  {
    TakeShape(s, i, target, n);
    hide TakeInterrupt, FindInFlight, FindPending, OneWaits, ListsApart;
    if !n.fates[i].Delivering? {
      var hit := FindPending(s.pending, target);
      OneWaitsIn(n, if hit.Some? then hit.value else |s.pending|);
    }
  }

  /** A waiting interrupt leaves the list in two ways only: the request it names arrives, marked; or a
      request that no interrupt waits for arrives, and the first one waiting is sent back with EAGAIN. */
  lemma {:induction false} PendingLeaves(s: Session, step: Step, k: nat, n: Session)
    requires Reachable(s) && Inv(s) && Enabled(s, step) && n == Next(s, step)
    requires k < |s.pending| && s.pending[k] !in n.pending
    ensures step.Arrive? && step.req in n.reqs && s.pending[k].intr in n.fates
    ensures n.reqs[step.req].interrupted <==> s.pending[k].target == step.unique
    ensures n.fates[s.pending[k].intr] ==
            if s.pending[k].target == step.unique then Matched(step.req) else AnsweredAgain
    ensures s.pending[k].target != step.unique ==>
            k == 0 && forall j :: 0 <= j < |s.pending| ==> s.pending[j].target != step.unique
  {
    hide Reachable, ReqOk, FatesOk, TakeInterrupt;
    PendingStays(s, step, k);
    ArrivalTakes(s.pending, step.unique, k);
  }

  /** Only an arrival takes an element off the list. */
  lemma {:induction false} PendingStays(s: Session, step: Step, k: nat)
    requires ThreadsLive(s) && Enabled(s, step) && k < |s.pending|
    ensures step.Arrive? || s.pending[k] in Next(s, step).pending
  {
    hide FindPending, FindInFlight, Arrived;
    assert s.pending[k] in s.pending;
  }

  /** An arrival takes the element that waits for it, or else the first. */
  lemma {:induction false} ArrivalTakes(pending: seq<Pending>, unique: nat, k: nat)
    requires k < |pending|
    ensures var hit := FindPending(pending, unique);
      if hit.Some? then hit.value == k || pending[k] in DropAt(pending, hit.value)
      else k == 0 || pending[k] in pending[1..]
  {
    var hit := FindPending(pending, unique);
    if hit.Some? && hit.value != k {
      assert DropAt(pending, hit.value)[if k < hit.value then k else k - 1] == pending[k];
    } else if hit.None? && k > 0 {
      assert pending[1..][k - 1] == pending[k];
    }
  }

  /** What became of an interrupt is final once it marked its request, was a duplicate or was answered; and a
      delivery under way ends only by marking the request it was meant for. */
  lemma {:induction false} FatesAreFinal(s: Session, step: Step, i: nat, n: Session)
    requires Reachable(s) && Inv(s) && Enabled(s, step) && n == Next(s, step) && i in s.fates
    ensures i in n.fates
    ensures n.fates[i] != s.fates[i] ==>
        s.fates[i] == Waits || (s.fates[i].Delivering? && n.fates[i] == Delivered(s.fates[i].req))
  {
    hide Reachable, Inv, Next, Enabled;
    StepFinal(s, step, i, n);
  }

  lemma {:induction false} StepFinal(s: Session, step: Step, i: nat, n: Session)
    requires Inv(s) && Enabled(s, step) && n == Next(s, step) && i in s.fates
    ensures i in n.fates
    ensures n.fates[i] != s.fates[i] ==>
        s.fates[i] == Waits || (s.fates[i].Delivering? && n.fates[i] == Delivered(s.fates[i].req))
  {
    hide ReqOk, ListsApart, Arrived, TakeInterrupt, FateOk, RecordOk, FatesOk;
    assert FatesOk(s);
    if step.Arrive? {
      ArriveFinal(s, step.req, step.unique, i);
    } else if step.Interrupt? {
      InterruptFinal(s, step.intr, step.target, i);
    } else if step.IntrMark? {
      MarkFinal(s, step.intr);
    }
  }

  lemma {:induction false} MarkFinal(s: Session, t: nat)
    requires FatesOk(s) && t in s.intrs && s.intrs[t].Locked?
    ensures t in s.fates && s.fates[t] == Delivering(s.intrs[t].req)
  {
  }

  lemma {:induction false} InterruptFinal(s: Session, j: nat, target: nat, i: nat)
    requires ThreadsLive(s) && i in s.fates && j !in s.fates
    ensures var n := TakeInterrupt(s, j, target); i in n.fates && n.fates[i] == s.fates[i]
  {
    hide FindPending, FindInFlight;
  }

  lemma {:induction false} ArriveFinal(s: Session, r: nat, unique: nat, i: nat)
    requires FatesOk(s) && i in s.fates
    ensures var n := Arrived(s, r, unique); i in n.fates && (n.fates[i] != s.fates[i] ==> s.fates[i] == Waits)
  {
    hide FindPending, DropAt;
  }

  /** A callback registered on an interrupted request, before or after the interrupt, has run by the time
      the request's mutex is free. */
  lemma {:induction false} CallbackRuns(s: Session, r: nat)
    requires Reachable(s) && r in s.reqs && s.reqs[r].holder.None? && s.reqs[r].interrupted && s.reqs[r].func.Some?
    ensures s.reqs[r].func.value in s.reqs[r].called
  {
    assert ReqOk(s, r);
    FreeMutex(s, r, s.reqs[r].func.value);
  }

  lemma {:induction false} FreeMutex(s: Session, r: nat, f: nat)
    requires r in s.reqs && Guarded(s, r) && s.reqs[r].holder.None?
    ensures !AboutToCall(s, r, f)
  {
    forall t | t in s.intrs ensures s.intrs[t] != Marked(r, Some(f)) {
      assert s.intrs[t].req == r ==> !s.intrs[t].Marked?;
    }
  }

  /** After a callback has been deregistered nobody is running it, and no step of any thread runs one for
      the request until its handler registers again. */
  lemma {:induction false} DeregisteredIsQuiet(s: Session, r: nat, step: Step, n: Session)
    requires Reachable(s) && Inv(s) && Enabled(s, step) && n == Next(s, step)
    requires r in s.handlers && s.handlers[r].Running? && s.reqs[r].func.None?
    ensures forall t :: t in s.intrs && s.intrs[t].req == r && s.intrs[t].Marked? ==> s.intrs[t].copy.None?
    ensures r in n.reqs ==> n.reqs[r].called == s.reqs[r].called && n.reqs[r].func.None?
    ensures r in n.handlers && !step.RegLock? ==> n.handlers[r].Running? || n.handlers[r].Destroying?
  {
    hide Reachable, FatesOk, ListsApart, Next, Enabled, ReqOk;
    assert ReqOk(s, r);
    OkQuiet(s, r);
    QuietStep(s, r, step, n);
  }

  lemma {:induction false} OkQuiet(s: Session, r: nat)
    requires r in s.reqs && ReqOk(s, r) && r in s.handlers && s.handlers[r].Running? && s.reqs[r].func.None?
    ensures forall t :: t in s.intrs && s.intrs[t].req == r && s.intrs[t].Marked? ==> s.intrs[t].copy.None?
  {
  }

  lemma {:induction false} QuietStep(s: Session, r: nat, step: Step, n: Session)
    requires ThreadsLive(s) && Enabled(s, step) && n == Next(s, step)
    requires r in s.handlers && s.handlers[r].Running? && s.reqs[r].func.None?
    requires forall t :: t in s.intrs && s.intrs[t].req == r && s.intrs[t].Marked? ==> s.intrs[t].copy.None?
    ensures r in n.reqs ==> n.reqs[r].called == s.reqs[r].called && n.reqs[r].func.None?
    ensures r in n.handlers && !step.RegLock? ==> n.handlers[r].Running? || n.handlers[r].Destroying?
  {
    hide Arrived, TakeInterrupt, FindInFlight, FindPending, Without;
    if step.Arrive? {
      ArriveShape(s, step.req, step.unique);
    } else if step.Interrupt? {
      TakeShape(s, step.intr, step.target, n);
    }
  }

  // ---------------------------------------------------------------- which callback is registered

  /** The callback a step leaves registered for a request, given the one before: an arrival has none, and a
      registration replaces it. */
  function Registers(step: Step, r: nat, cur: Option<nat>): Option<nat> {
    match step
    case Arrive(x, _) => if x == r then None else cur
    case RegLock(x, func) => if x == r then func else cur
    case _ => cur
  }

  /** The request has the callback registered last, or its handler is about to store it. */
  ghost predicate RegOk(s: Session, r: nat, cur: Option<nat>) {
    r in s.reqs ==>
      if r !in s.handlers then s.reqs[r].func.None?
      else
        match s.handlers[r]
        case Running => s.reqs[r].func == cur
        case RegHeld(func) => func == cur
        case RegSet(func) => func == cur && s.reqs[r].func == cur
        case RegCalled(ran) => Some(ran) == cur && s.reqs[r].func == cur
        case Destroying => s.reqs[r].func.None?
  }

  lemma {:induction false} StepRegs(s: Session, step: Step, r: nat, cur: Option<nat>)
    requires ThreadsLive(s) && Enabled(s, step) && RegOk(s, r, cur)
    ensures RegOk(Next(s, step), r, Registers(step, r, cur))
  {
    hide Arrived, TakeInterrupt, FindInFlight, FindPending, Without;
    if step.Arrive? {
      ArriveShape(s, step.req, step.unique);
    } else if step.Interrupt? {
      TakeShape(s, step.intr, step.target, Next(s, step));
    } else if step.IntrLock? || step.IntrMark? || step.IntrUnlock? || step.IntrDrop? {
      IntrRegs(s, step, Next(s, step));
    } else {
      HandlerRegs(s, step, r, cur);
    }
  }

  /** A delivering thread touches no registration. */
  lemma {:induction false} IntrRegs(s: Session, step: Step, n: Session)
    requires ThreadsLive(s) && Enabled(s, step) && n == Next(s, step)
    requires step.IntrLock? || step.IntrMark? || step.IntrUnlock? || step.IntrDrop?
    ensures n.handlers == s.handlers && forall r :: r in n.reqs ==> r in s.reqs && n.reqs[r].func == s.reqs[r].func
  {
    hide Arrived, TakeInterrupt, Without, ThreadsLive;
  }

  lemma {:induction false} HandlerRegs(s: Session, step: Step, r: nat, cur: Option<nat>)
    requires ThreadsLive(s) && Enabled(s, step) && RegOk(s, r, cur)
    requires step.RegLock? || step.RegStore? || step.RegTest? || step.RegUnlock? || step.Reply? || step.Destroy?
    ensures RegOk(Next(s, step), r, Registers(step, r, cur))
  {
    hide Arrived, TakeInterrupt, Without, ThreadsLive;
  }

  ghost function RegisteredLast(steps: seq<Step>, r: nat, cur: Option<nat>): Option<nat>
    decreases |steps|
  {
    if steps == [] then cur else RegisteredLast(steps[1..], r, Registers(steps[0], r, cur))
  }

  lemma {:induction false} RunRegs(s: Session, steps: seq<Step>, n: Session, r: nat, cur: Option<nat>)
    requires Inv(s) && Recorded(s) && Justified(s) && RunFrom(s, steps) == Some(n) && RegOk(s, r, cur)
    ensures RegOk(n, r, RegisteredLast(steps, r, cur))
    decreases |steps|
  {
    hide Next, Enabled, Recorded, Justified, RegOk, FatesOk, ListsApart, ReqOk;
    if steps != [] {
      StepKeeps(s, steps[0]);
      StepRecords(s, steps[0]);
      StepJustifies(s, steps[0], Next(s, steps[0]));
      StepRegs(s, steps[0], r, cur);
      RunRegs(Next(s, steps[0]), steps[1..], n, r, Registers(steps[0], r, cur));
    }
  }

  /** Over every run a request whose handler is not in the middle of a registration has the callback it registered
      last, and one that has been replied to has none. */
  lemma {:induction false} LastRegistrationStands(steps: seq<Step>, s: Session, r: nat)
    requires Inv(Init()) && RunFrom(Init(), steps) == Some(s) && r in s.reqs
    ensures r in s.handlers && s.handlers[r].Running? ==> s.reqs[r].func == RegisteredLast(steps, r, None)
    ensures r !in s.handlers || s.handlers[r].Destroying? ==> s.reqs[r].func.None?
  {
    hide Inv, Recorded, Justified;
    NobodyYet(r);
    RunRegs(Init(), steps, s, r, None);
  }

  lemma {:induction false} NobodyYet(r: nat)
    ensures Recorded(Init()) && Justified(Init()) && RegOk(Init(), r, None)
  {
  }

  /** In every reachable state a marked request was named by an interrupt that has its number, and a callback has run
      only for a marked request. */
  lemma {:induction false} MarkedForAReason(s: Session, r: nat)
    requires Reachable(s) && r in s.reqs
    ensures s.reqs[r].interrupted ==>
      exists i :: MarkedBy(s, i, r) && i in s.targets && s.targets[i] == s.reqs[r].unique
    ensures s.reqs[r].called != {} ==> s.reqs[r].interrupted
  {
    hide ReqOk, FatesOk, ListsApart;
    if s.reqs[r].interrupted {
      var i :| MarkedBy(s, i, r);
      assert RecordOk(s, i);
    }
  }

  /** An arriving request is in flight under its own number, with its handler running and no callback, and is marked
      exactly if an interrupt was waiting for that number. */
  lemma {:induction false} ArrivalTakesNumber(s: Session, r: nat, unique: nat, n: Session)
    requires Reachable(s) && Inv(s) && Enabled(s, Arrive(r, unique)) && n == Next(s, Arrive(r, unique))
    ensures r in n.list && r in n.handlers && n.handlers[r].Running? && r in n.reqs
    ensures n.reqs[r].unique == unique && n.reqs[r].func.None? && n.reqs[r].refs == 1
    ensures n.reqs[r].interrupted <==> exists k :: 0 <= k < |s.pending| && s.pending[k].target == unique
  {
    hide Reachable, Inv, Arrived, FindPending;
    ArriveShape(s, r, unique);
  }

  /** What an arrival does to the waiting interrupts: the one for its number is matched; without one the first in line
      is answered EAGAIN. One element leaves the list, if there is any. */
  lemma {:induction false} ArrivalAnswers(s: Session, r: nat, unique: nat, n: Session)
    requires Reachable(s) && Inv(s) && Enabled(s, Arrive(r, unique)) && n == Next(s, Arrive(r, unique))
    ensures |n.pending| == if s.pending == [] then 0 else |s.pending| - 1
    ensures forall k :: 0 <= k < |s.pending| && s.pending[k].target == unique ==>
      s.pending[k].intr in n.fates && n.fates[s.pending[k].intr] == Matched(r) && n.pending == DropAt(s.pending, k)
    ensures s.pending != [] && (forall k :: 0 <= k < |s.pending| ==> s.pending[k].target != unique) ==>
      s.pending[0].intr in n.fates && n.fates[s.pending[0].intr] == AnsweredAgain && n.pending == s.pending[1..]
  {
    hide Reachable, FatesOk, ReqOk, ThreadsLive, FindPending;
    var hit := FindPending(s.pending, unique);
    if hit.Some? {
      forall k | 0 <= k < |s.pending| && s.pending[k].target == unique ensures k == hit.value {
        assert k < hit.value || hit.value < k || k == hit.value;
      }
    }
  }
}
