/** POSIX byte-range locks of a node: one list shared by all owners. */
module ByteLocks {
  import opened Prelude

  const OFFSET_MAX: int := 0x7fff_ffff_ffff_ffff

  datatype Kind = Read | Write | Unlock

  /** `struct lock`; the range is from `start` to `end`, both included. */
  datatype Lock = Lock(kind: Kind, start: int, end: int, pid: int, owner: nat)

  ghost predicate ValidRange(l: Lock) {
    0 <= l.start <= l.end <= OFFSET_MAX
  }

  predicate Covers(l: Lock, owner: nat, b: int) {
    l.owner == owner && l.start <= b <= l.end
  }

  // ---------------------------------------------------------------- what a list means

  /** The owner holds byte `b` with the given kind. */
  ghost predicate Holds(s: seq<Lock>, owner: nat, b: int, kind: Kind) {
    exists i :: 0 <= i < |s| && Covers(s[i], owner, b) && s[i].kind == kind
  }

  /** `a` lies before `b`, not touching it if both are of one kind. */
  predicate Apart(a: Lock, b: Lock) {
    a.owner == b.owner ==> a.end < b.start && (a.kind == b.kind ==> a.end + 1 < b.start)
  }

  /** The normal form of the list: per owner sorted, disjoint, and coalesced among equal kinds. */
  ghost predicate Normal(s: seq<Lock>) {
    && (forall i :: 0 <= i < |s| ==> ValidRange(s[i]) && s[i].kind != Unlock)
    && (forall i, j :: 0 <= i < j < |s| ==> Apart(s[i], s[j]))
  }

  /** At most one kind of lock per byte and owner. */
  lemma {:induction false} OneKindPerByte(s: seq<Lock>, owner: nat, b: int, k1: Kind, k2: Kind)
    requires Normal(s) && Holds(s, owner, b, k1) && Holds(s, owner, b, k2)
    ensures k1 == k2
  {
    var i :| 0 <= i < |s| && Covers(s[i], owner, b) && s[i].kind == k1;
    var j :| 0 <= j < |s| && Covers(s[j], owner, b) && s[j].kind == k2;
    assert i < j ==> Apart(s[i], s[j]);
    assert j < i ==> Apart(s[j], s[i]);
  }

  /** The entries of everybody else, in order. */
  function Others(s: seq<Lock>, owner: nat): seq<Lock> {
    if s == [] then []
    else (if s[0].owner == owner then [] else [s[0]]) + Others(s[1..], owner)
  }

  lemma {:induction false} OthersConcat(a: seq<Lock>, b: seq<Lock>, owner: nat)
    ensures Others(a + b, owner) == Others(a, owner) + Others(b, owner)
    decreases |a|
  {
    if a == [] {
      assert a + b == b;
    } else {
      assert (a + b)[0] == a[0] && (a + b)[1..] == a[1..] + b;
      var head := if a[0].owner == owner then [] else [a[0]];
      OthersConcat(a[1..], b, owner);
      assert head + (Others(a[1..], owner) + Others(b, owner)) == (head + Others(a[1..], owner)) + Others(b, owner);
    }
  }

  /** What `locks_insert` promises: on the requested range the owner holds the new kind, or nothing
      after an unlock; every other byte and every other owner is as before. */
  ghost predicate Inserted(before: seq<Lock>, lock: Lock, after: seq<Lock>) {
    && (forall owner, b, kind :: Holds(after, owner, b, kind) <==>
         if Covers(lock, owner, b) then kind == lock.kind && kind != Unlock else Holds(before, owner, b, kind))
    && Others(after, lock.owner) == Others(before, lock.owner)
    && Normal(after)
  }

  // ---------------------------------------------------------------- which entries

  /** `e` is a piece of `o`: the same lock on part of its range. */
  ghost predicate PieceOf(o: Lock, e: Lock) {
    e == o.(start := e.start, end := e.end) && o.start <= e.start && e.end <= o.end
  }

  /** The entry of a request: its lock on at least the range it asked for. */
  ghost predicate EntryFor(lock: Lock, e: Lock) {
    e == lock.(start := e.start, end := e.end) && e.start <= lock.start && lock.end <= e.end
  }

  /** The i-th entry has the owner and kind of the request and contains its range. */
  ghost predicate Contains(s: seq<Lock>, i: int, lock: Lock) {
    && 0 <= i < |s| && s[i].owner == lock.owner && s[i].kind == lock.kind
    && s[i].start <= lock.start && lock.end <= s[i].end
  }

  ghost predicate Derived(before: seq<Lock>, owner: nat, e: Lock) {
    e.owner == owner ==> exists o :: o in before && PieceOf(o, e)
  }

  /** Every entry of the owner is a piece of an old one. */
  ghost predicate AllDerived(before: seq<Lock>, owner: nat, s: seq<Lock>) {
    forall i :: 0 <= i < |s| ==> Derived(before, owner, s[i])
  }

  /** The i-th entry is the last of the list, or the next one is the owner's. */
  ghost predicate LastOrBefore(s: seq<Lock>, i: nat, owner: nat) {
    i + 1 >= |s| || s[i + 1].owner == owner
  }

  /** Whose lock each entry is, its pid included: a request whose range an entry of its kind already contains changes
      nothing; otherwise there is one entry for it, at the end or before another of the owner, and every other
      entry of the owner is a piece of an old one. */
  ghost predicate Stamped(before: seq<Lock>, lock: Lock, after: seq<Lock>) {
    if lock.kind == Unlock then AllDerived(before, lock.owner, after)
    else if exists c :: Contains(before, c, lock) then after == before
    else
      exists i ::
        && 0 <= i < |after| && EntryFor(lock, after[i]) && LastOrBefore(after, i, lock.owner)
        && (forall j :: 0 <= j < |after| && j != i ==> Derived(before, lock.owner, after[j]))
  }

  lemma {:induction false} DerivedStart(before: seq<Lock>, owner: nat)
    ensures AllDerived(before, owner, before)
  {
    forall i | 0 <= i < |before| ensures Derived(before, owner, before[i]) {
      assert before[i] in before && PieceOf(before[i], before[i]);
    }
  }

  lemma {:induction false} DerivedDelete(before: seq<Lock>, owner: nat, s: seq<Lock>, p: nat)
    requires AllDerived(before, owner, s) && p < |s|
    ensures AllDerived(before, owner, DeleteAt(s, p))
  {
    hide Derived;
    var r := DeleteAt(s, p);
    forall i | 0 <= i < |r| ensures Derived(before, owner, r[i]) {
      assert r[i] == s[if i < p then i else i + 1];
    }
  }

  lemma {:induction false} DerivedPiece(before: seq<Lock>, owner: nat, s: seq<Lock>, p: nat, piece: Lock)
    requires AllDerived(before, owner, s) && p < |s| && PieceOf(s[p], piece)
    ensures Derived(before, owner, piece) && AllDerived(before, owner, s[p := piece])
  {
    assert Derived(before, owner, s[p]);
    if piece.owner == owner {
      var o :| o in before && PieceOf(o, s[p]);
      assert PieceOf(o, piece);
    }
  }

  lemma {:induction false} DerivedTail(before: seq<Lock>, owner: nat, s: seq<Lock>, p: nat, tail: Lock)
    requires AllDerived(before, owner, s) && p <= |s| && Derived(before, owner, tail)
    ensures AllDerived(before, owner, InsertAt(s, p, tail))
  {
    hide Derived;
    var r := InsertAt(s, p, tail);
    forall i | 0 <= i < |r| ensures Derived(before, owner, r[i]) {
      assert r[i] == if i < p then s[i] else if i == p then tail else s[i - 1];
    }
  }

  /** An entry of the owner that contains the request is a piece of an old one that does. */
  lemma {:induction false} ContainedBefore(before: seq<Lock>, s: seq<Lock>, p: nat, lock: Lock)
    requires AllDerived(before, lock.owner, s) && Contains(s, p, lock)
    ensures exists c :: Contains(before, c, lock)
  {
    assert Derived(before, lock.owner, s[p]);
    var o :| o in before && PieceOf(o, s[p]);
    var c :| 0 <= c < |before| && before[c] == o;
    assert Contains(before, c, lock);
  }

  /** Before an entry that contains the request, the owner's entries end short of it. */
  lemma {:induction false} Ahead(before: seq<Lock>, c: nat, lock: Lock, p: nat)
    requires Normal(before) && Contains(before, c, lock) && p < c && before[p].owner == lock.owner
    ensures before[p].end < lock.start && (before[p].kind == lock.kind ==> before[p].end < lock.start - 1)
  {
    assert Apart(before[p], before[c]);
  }

  lemma {:induction false} StampedInsert(before: seq<Lock>, lock: Lock, s: seq<Lock>, p: nat, grown: Lock)
    requires AllDerived(before, lock.owner, s) && p <= |s| && EntryFor(lock, grown) && lock.kind != Unlock
    requires (p == |s| || s[p].owner == lock.owner) && !exists c :: Contains(before, c, lock)
    ensures Stamped(before, lock, InsertAt(s, p, grown))
  {
    hide Derived;
    var r := InsertAt(s, p, grown);
    assert r[p] == grown && (p < |s| ==> r[p + 1] == s[p]);
    forall j | 0 <= j < |r| && j != p ensures Derived(before, lock.owner, r[j]) {
      assert r[j] == if j < p then s[j] else s[j - 1];
    }
  }

  // ---------------------------------------------------------------- list surgery

  function InsertAt(s: seq<Lock>, p: nat, l: Lock): seq<Lock>
    requires p <= |s|
  {
    s[..p] + [l] + s[p..]
  }

  function DeleteAt(s: seq<Lock>, p: nat): seq<Lock>
    requires p < |s|
  {
    s[..p] + s[p + 1..]
  }

  lemma {:induction false} HoldsInsert(s: seq<Lock>, p: nat, l: Lock, owner: nat, b: int, kind: Kind)
    requires p <= |s|
    ensures Holds(InsertAt(s, p, l), owner, b, kind) <==>
        Holds(s, owner, b, kind) || (Covers(l, owner, b) && l.kind == kind)
  {
    var r := InsertAt(s, p, l);
    if Holds(r, owner, b, kind) {
      var i :| 0 <= i < |r| && Covers(r[i], owner, b) && r[i].kind == kind;
      if i != p {
        assert r[i] == s[if i < p then i else i - 1];
      }
    }
    if Holds(s, owner, b, kind) {
      var i :| 0 <= i < |s| && Covers(s[i], owner, b) && s[i].kind == kind;
      assert r[if i < p then i else i + 1] == s[i];
    }
    assert r[p] == l;
  }

  lemma {:induction false} HoldsDelete(s: seq<Lock>, p: nat, owner: nat, b: int, kind: Kind)
    requires p < |s|
    ensures Holds(s, owner, b, kind) <==>
        Holds(DeleteAt(s, p), owner, b, kind) || (Covers(s[p], owner, b) && s[p].kind == kind)
  {
    var r := DeleteAt(s, p);
    assert s == InsertAt(r, p, s[p]);
    HoldsInsert(r, p, s[p], owner, b, kind);
  }

  lemma {:induction false} NormalInsert(s: seq<Lock>, p: nat, l: Lock)
    requires Normal(s) && p <= |s| && ValidRange(l) && l.kind != Unlock
    requires (forall i :: 0 <= i < p ==> Apart(s[i], l)) && (forall i :: p <= i < |s| ==> Apart(l, s[i]))
    ensures Normal(InsertAt(s, p, l))
  {
    var r := InsertAt(s, p, l);
    forall i, j | 0 <= i < j < |r| ensures Apart(r[i], r[j]) {
      assert i != p ==> r[i] == s[if i < p then i else i - 1];
      assert j != p ==> r[j] == s[if j < p then j else j - 1];
    }
  }

  lemma {:induction false} NormalDelete(s: seq<Lock>, p: nat)
    requires Normal(s) && p < |s|
    ensures Normal(DeleteAt(s, p))
    ensures forall i :: 0 <= i < p ==> Apart(s[i], s[p])
    ensures forall i :: p <= i < |s| - 1 ==> Apart(s[p], DeleteAt(s, p)[i])
  {
    var r := DeleteAt(s, p);
    forall i, j | 0 <= i < j < |r| ensures Apart(r[i], r[j]) {
      assert r[i] == s[if i < p then i else i + 1] && r[j] == s[if j < p then j else j + 1];
    }
  }

  lemma {:induction false} OthersInsert(s: seq<Lock>, p: nat, l: Lock)
    requires p <= |s|
    ensures Others(InsertAt(s, p, l), l.owner) == Others(s, l.owner)
  {
    OthersConcat(s[..p] + [l], s[p..], l.owner);
    OthersConcat(s[..p], [l], l.owner);
    OthersConcat(s[..p], s[p..], l.owner);
    assert s == s[..p] + s[p..];
  }

  lemma {:induction false} OthersDelete(s: seq<Lock>, p: nat)
    requires p < |s|
    ensures Others(DeleteAt(s, p), s[p].owner) == Others(s, s[p].owner)
  {
    assert s == InsertAt(DeleteAt(s, p), p, s[p]);
    OthersInsert(DeleteAt(s, p), p, s[p]);
  }

  // ---------------------------------------------------------------- the insertion loop

  /** The loop invariant of `locks_insert`. `want` is the request as it came; `grown` is the request
      as the loop has widened it; `s` is the list so far and `p` the position reached. */
  ghost predicate Progress(before: seq<Lock>, want: Lock, s: seq<Lock>, p: nat, grown: Lock) {
    && AllDerived(before, want.owner, s)
    && p <= |s| && Normal(s)
    && grown == want.(start := grown.start, end := grown.end)
    && 0 <= grown.start <= want.start <= want.end <= grown.end <= OFFSET_MAX
    && (forall i :: 0 <= i < p ==> Apart(s[i], grown))
    && Others(s, want.owner) == Others(before, want.owner)
    && (forall owner, b, kind :: !Covers(grown, owner, b) ==>
        (Holds(s, owner, b, kind) <==> Holds(before, owner, b, kind)))
    && (forall b, kind :: Covers(grown, want.owner, b) && !Covers(want, want.owner, b) ==>
         (Holds(before, want.owner, b, kind) <==> kind == want.kind))
    && (want.kind == Unlock ==> grown == want)
  }

  lemma {:induction false} SkipKeeps(before: seq<Lock>, want: Lock, s: seq<Lock>, p: nat, grown: Lock)
    requires Progress(before, want, s, p, grown) && p < |s| && Apart(s[p], grown)
    ensures Progress(before, want, s, p + 1, grown)
  {
  }

  /** Deleting an entry that lies inside the request. */
  lemma {:induction false} DropKeeps(before: seq<Lock>, want: Lock, s: seq<Lock>, p: nat, grown: Lock)
    requires Progress(before, want, s, p, grown) && p < |s| && s[p].owner == want.owner
    requires grown.start <= s[p].start && s[p].end <= grown.end
    ensures Progress(before, want, DeleteAt(s, p), p, grown)
  {
    hide AllDerived;
    var r := DeleteAt(s, p);
    DerivedDelete(before, want.owner, s, p);
    NormalDelete(s, p);
    OthersDelete(s, p);
    forall owner, b, kind | !Covers(grown, owner, b)
      ensures Holds(r, owner, b, kind) <==> Holds(before, owner, b, kind)
    {
      HoldsDelete(s, p, owner, b, kind);
    }
  }

  /** Widening the request over an entry of its own kind that it overlaps or touches. */
  lemma {:induction false} WidenKeeps(before: seq<Lock>, want: Lock, s: seq<Lock>, p: nat, grown: Lock, wide: Lock)
    requires Progress(before, want, s, p, grown) && p < |s| && s[p].owner == want.owner && s[p].kind == want.kind
    requires grown.start - 1 <= s[p].end && s[p].start - 1 <= grown.end
    requires wide == grown.(start := if s[p].start < grown.start then s[p].start else grown.start,
                            end := if grown.end < s[p].end then s[p].end else grown.end)
    ensures Progress(before, want, s, p, wide)
  {
    forall i | 0 <= i < p ensures Apart(s[i], wide) {
      assert Apart(s[i], s[p]) && Apart(s[i], grown);
    }
    forall b, kind | Covers(wide, want.owner, b) && !Covers(want, want.owner, b)
      ensures Holds(before, want.owner, b, kind) <==> kind == want.kind
    {
      if !Covers(grown, want.owner, b) {
        assert Covers(s[p], want.owner, b);
        assert Holds(s, want.owner, b, want.kind);
        if Holds(s, want.owner, b, kind) {
          OneKindPerByte(s, want.owner, b, kind, want.kind);
        }
      }
    }
  }

  /** Replacing an entry by a piece of itself that keeps the part outside the request. */
  lemma {:induction false} TrimKeeps(before: seq<Lock>, want: Lock, s: seq<Lock>, p: nat, grown: Lock, piece: Lock)
    requires Progress(before, want, s, p, grown) && p < |s| && s[p].owner == want.owner
    requires piece == s[p].(start := piece.start, end := piece.end)
    requires s[p].start <= piece.start <= piece.end <= s[p].end
    requires s[p].start < piece.start ==> grown.start <= s[p].start && piece.start - 1 <= grown.end
    requires piece.end < s[p].end ==> grown.start <= piece.end + 1 && s[p].end <= grown.end
    ensures Progress(before, want, s[p := piece], p, grown)
  {
    hide AllDerived;
    var r := s[p := piece];
    DerivedPiece(before, want.owner, s, p, piece);
    var d := DeleteAt(s, p);
    assert r == InsertAt(d, p, piece);
    NormalDelete(s, p);
    NormalInsert(d, p, piece);
    OthersDelete(s, p);
    OthersInsert(d, p, piece);
    forall owner, b, kind | !Covers(grown, owner, b)
      ensures Holds(r, owner, b, kind) <==> Holds(before, owner, b, kind)
    {
      HoldsDelete(s, p, owner, b, kind);
      HoldsInsert(d, p, piece, owner, b, kind);
    }
  }

  /** Putting back the part of a split entry that lies after the request. */
  lemma {:induction false} TailKeeps(
      before: seq<Lock>, want: Lock, s: seq<Lock>, p: nat, grown: Lock, whole: Lock, tail: Lock)
    requires Progress(before, want, s, p, grown) && p < |s| && s[p].owner == want.owner && s[p].kind != want.kind
    requires s[p] == whole && whole.start < grown.start && grown.end < whole.end
    requires tail == whole.(start := grown.end + 1)
    ensures var r := InsertAt(s[p := whole.(end := grown.start - 1)], p + 1, tail);
      Progress(before, want, r, p + 1, grown)
  {
    hide AllDerived;
    var head := whole.(end := grown.start - 1);
    DerivedPiece(before, want.owner, s, p, tail);
    DerivedPiece(before, want.owner, s, p, head);
    DerivedTail(before, want.owner, s[p := head], p + 1, tail);
    var d := DeleteAt(s, p);
    var one := InsertAt(d, p, head);
    var r := InsertAt(one, p + 1, tail);
    assert s[p := head] == one;
    NormalDelete(s, p);
    NormalInsert(d, p, head);
    forall i | p + 1 <= i < |one| ensures Apart(tail, one[i]) {
      assert one[i] == d[i - 1];
    }
    forall i | 0 <= i < p + 1 ensures Apart(one[i], tail) {
      assert i < p ==> one[i] == d[i];
    }
    NormalInsert(one, p + 1, tail);
    OthersDelete(s, p);
    OthersInsert(d, p, head);
    OthersInsert(one, p + 1, tail);
    forall owner, b, kind | !Covers(grown, owner, b)
      ensures Holds(r, owner, b, kind) <==> Holds(before, owner, b, kind)
    {
      HoldsDelete(s, p, owner, b, kind);
      HoldsInsert(d, p, head, owner, b, kind);
      HoldsInsert(one, p + 1, tail, owner, b, kind);
    }
    forall i | 0 <= i < p + 1 ensures Apart(r[i], grown) {
      assert r[i] == if i < p then s[i] else head;
    }
  }

  /** Every entry of the owner from `p` on lies after the request. */
  ghost predicate Clear(s: seq<Lock>, p: nat, grown: Lock) {
    p <= |s| && forall i :: p <= i < |s| ==> Apart(grown, s[i])
  }

  /** If the entry at `p` lies after the request, so do all later ones. */
  lemma {:induction false} BreakClear(s: seq<Lock>, p: nat, grown: Lock)
    requires Normal(s) && p < |s| && s[p].owner == grown.owner && Apart(grown, s[p])
    ensures Clear(s, p, grown)
  {
    forall i | p <= i < |s| ensures Apart(grown, s[i]) {
      if i > p { assert Apart(s[p], s[i]); }
    }
  }

  /** The end of the loop: with the rest clear, putting the widened request in place (or nothing, for
      an unlock) does what was promised. */
  lemma {:induction false} FinishInserts(before: seq<Lock>, want: Lock, s: seq<Lock>, p: nat, grown: Lock)
    requires Progress(before, want, s, p, grown) && Clear(s, p, grown)
    ensures want.kind != Unlock ==> Inserted(before, want, InsertAt(s, p, grown))
    ensures want.kind == Unlock ==> Inserted(before, want, s)
  {
    forall b, kind | Covers(grown, want.owner, b) ensures !Holds(s, want.owner, b, kind) {
      ClearHolds(s, p, grown, b, kind);
    }
    if want.kind != Unlock {
      var r := InsertAt(s, p, grown);
      NormalInsert(s, p, grown);
      OthersInsert(s, p, grown);
      forall owner, b, kind
        ensures Holds(r, owner, b, kind) <==>
                if Covers(want, owner, b) then kind == want.kind && kind != Unlock else Holds(before, owner, b, kind)
      {
        HoldsInsert(s, p, grown, owner, b, kind);
      }
    }
  }

  lemma {:induction false} ClearHolds(s: seq<Lock>, p: nat, grown: Lock, b: int, kind: Kind)
    requires Clear(s, p, grown) && (forall i :: 0 <= i < p ==> Apart(s[i], grown)) && Covers(grown, grown.owner, b)
    ensures !Holds(s, grown.owner, b, kind)
  {
    forall i | 0 <= i < |s| ensures !Covers(s[i], grown.owner, b) {
      assert if i < p then Apart(s[i], grown) else Apart(grown, s[i]);
    }
  }

  /** The early exit: an entry of the same kind contains the widened request. */
  lemma {:induction false} ContainedInserts(before: seq<Lock>, want: Lock, s: seq<Lock>, p: nat, grown: Lock)
    requires Progress(before, want, s, p, grown) && p < |s| && s[p].owner == want.owner && s[p].kind == want.kind
    requires s[p].start <= grown.start && grown.end <= s[p].end
    ensures Inserted(before, want, s)
  {
    forall owner, b, kind
      ensures Holds(s, owner, b, kind) <==>
              if Covers(want, owner, b) then kind == want.kind && kind != Unlock else Holds(before, owner, b, kind)
    {
      if Covers(grown, owner, b) {
        assert Covers(s[p], owner, b);
        assert Holds(s, owner, b, want.kind);
        if Holds(s, owner, b, kind) {
          OneKindPerByte(s, owner, b, kind, want.kind);
        }
      }
    }
  }

  lemma {:induction false} StartProgress(before: seq<Lock>, want: Lock)
    requires Normal(before) && ValidRange(want)
    ensures Progress(before, want, before, 0, want)
  {
    DerivedStart(before, want.owner);
  }

  /** The plain facts about the request and the entries that the loop body needs. */
  lemma {:induction false} ProgressFacts(before: seq<Lock>, want: Lock, s: seq<Lock>, p: nat, grown: Lock)
    requires Progress(before, want, s, p, grown)
    ensures grown == want.(start := grown.start, end := grown.end) && Normal(s)
    ensures 0 <= grown.start <= want.start <= want.end <= grown.end <= OFFSET_MAX
    ensures want.kind == Unlock ==> grown == want
    ensures forall i :: 0 <= i < |s| ==> ValidRange(s[i]) && s[i].kind != Unlock
  {
  }

  /** The locks of a node (`node->locks`). */
  class LockList {
    var locks: seq<Lock>

    constructor ()
      ensures locks == [] && Normal(locks)
    {
      locks := [];
    }

    /** `locks_insert`. `memory` says whether the two spare cells can be allocated; they are not asked
        for when everything is unlocked. `newl2` is the spare cell for a split. */
    method Insert(lock: Lock, memory: bool) returns (ok: bool)
      requires Normal(locks) && ValidRange(lock)
      modifies this
      ensures ok <==> memory || (lock.kind == Unlock && lock.start == 0 && lock.end == OFFSET_MAX)
      ensures ok ==> Inserted(old(locks), lock, locks) && Stamped(old(locks), lock, locks)
      ensures !ok ==> locks == old(locks)
    {
      hide Normal, Holds, Inserted, Progress, Others, Clear, AllDerived, Stamped, Derived;
      var newl2 := lock.kind != Unlock || lock.start != 0 || lock.end != OFFSET_MAX;
      if newl2 && !memory { return false; }
      ghost var split := false;
      var grown := lock;
      var p := 0;
      StartProgress(locks, lock);
      ghost var cont := FindContaining(locks, lock);
      while p < |locks|
        invariant p <= |locks| && Progress(old(locks), lock, locks, p, grown)
        invariant newl2 || split || (lock.kind == Unlock && lock.start == 0)
        invariant split ==> p < |locks| && locks[p].owner == lock.owner && locks[p].kind != lock.kind
        invariant split ==> grown.end < locks[p].start
        invariant cont.Some? ==> p <= cont.value && locks == old(locks) && grown == lock
        decreases |locks| - p + (if split then 0 else 1)
      {
        ProgressFacts(old(locks), lock, locks, p, grown);
        var l := locks[p];
        if cont.Some? && p < cont.value && l.owner == lock.owner { Ahead(locks, cont.value, lock, p); }
        if l.owner != grown.owner {
          SkipKeeps(old(locks), lock, locks, p, grown);
          p := p + 1;
        } else if grown.kind == l.kind {
          if l.end < grown.start - 1 {
            SkipKeeps(old(locks), lock, locks, p, grown);
            p := p + 1;
          } else if grown.end < l.start - 1 {
            BreakClear(locks, p, grown);
            break;
          } else if l.start <= grown.start && grown.end <= l.end {
            ContainedInserts(old(locks), lock, locks, p, grown);
            ContainedStamps(old(locks), lock, locks, p, grown);
            return true;
          } else {
            ghost var narrow := grown;
            if l.start < grown.start { grown := grown.(start := l.start); }
            if grown.end < l.end { grown := grown.(end := l.end); }
            WidenKeeps(old(locks), lock, locks, p, narrow, grown);
            DropKeeps(old(locks), lock, locks, p, grown);
            locks := DeleteAt(locks, p);
          }
        } else if l.end < grown.start {
          SkipKeeps(old(locks), lock, locks, p, grown);
          p := p + 1;
        } else if grown.end < l.start {
          BreakClear(locks, p, grown);
          break;
        } else if grown.start <= l.start && l.end <= grown.end {
          DropKeeps(old(locks), lock, locks, p, grown);
          locks := DeleteAt(locks, p);
        } else if l.end <= grown.end {
          TrimKeeps(old(locks), lock, locks, p, grown, l.(end := grown.start - 1));
          locks := locks[p := l.(end := grown.start - 1)];
          SkipKeeps(old(locks), lock, locks, p, grown);
          p := p + 1;
        } else if grown.start <= l.start {
          TrimKeeps(old(locks), lock, locks, p, grown, l.(start := grown.end + 1));
          locks := locks[p := l.(start := grown.end + 1)];
          ProgressFacts(old(locks), lock, locks, p, grown);
          BreakClear(locks, p, grown);
          break;
        } else {
          assert newl2;  // the spare cell is there, and used once
          TailKeeps(old(locks), lock, locks, p, grown, l, l.(start := grown.end + 1));
          locks := InsertAt(locks[p := l.(end := grown.start - 1)], p + 1, l.(start := grown.end + 1));
          newl2, split := false, true;
          p := p + 1;
        }
      }
      assert Clear(locks, p, grown) by { EndClear(locks, p, grown); }
      ProgressFacts(old(locks), lock, locks, p, grown);
      FinishInserts(old(locks), lock, locks, p, grown);
      FinishStamps(old(locks), lock, locks, p, grown);
      if lock.kind != Unlock {
        locks := InsertAt(locks, p, grown);
      }
      return true;
    }

    /** `locks_conflict`: the first entry that is in the way of the request, if any. */
    method Conflict(lock: Lock) returns (r: Option<Lock>)
      requires Normal(locks) && ValidRange(lock)
      ensures r.Some? ==>
        exists i :: 0 <= i < |locks| && r.value == locks[i] && InTheWay(locks[i], lock)
                 && forall j :: 0 <= j < i ==> !InTheWay(locks[j], lock)
      ensures r.Some? <==> Conflicts(locks, lock)
    {
      var i := 0;
      while i < |locks|
        invariant 0 <= i <= |locks|
        invariant forall j :: 0 <= j < i ==> !InTheWay(locks[j], lock)
      {
        if InTheWay(locks[i], lock) {
          SharedByte(locks[i], lock);
          assert Holds(locks, locks[i].owner, CommonByte(locks[i], lock), locks[i].kind);
          return Some(locks[i]);
        }
        i := i + 1;
      }
      NobodyInTheWay(locks, lock);
      return None;
    }
  }

  lemma {:induction false} ContainedStamps(before: seq<Lock>, want: Lock, s: seq<Lock>, p: nat, grown: Lock)
    requires Progress(before, want, s, p, grown) && p < |s| && want.kind != Unlock
    requires s[p].owner == want.owner && s[p].kind == want.kind && s[p].start <= grown.start && grown.end <= s[p].end
    ensures exists c :: Contains(before, c, want)
    ensures Stamped(before, want, before)
  {
    ContainedBefore(before, s, p, want);
  }

  lemma {:induction false} FinishStamps(before: seq<Lock>, want: Lock, s: seq<Lock>, p: nat, grown: Lock)
    requires Progress(before, want, s, p, grown) && p <= |s| && (p == |s| || s[p].owner == want.owner)
    requires want.kind != Unlock ==> !exists c :: Contains(before, c, want)
    ensures want.kind != Unlock ==> Stamped(before, want, InsertAt(s, p, grown))
    ensures want.kind == Unlock ==> Stamped(before, want, s)
  {
    hide AllDerived;
    if want.kind != Unlock {
      StampedInsert(before, want, s, p, grown);
    }
  }

  /** Where the request's range is contained already, if it is. */
  ghost function FindContaining(s: seq<Lock>, lock: Lock): (c: Option<nat>)
    ensures c.Some? ==> lock.kind != Unlock && Contains(s, c.value, lock)
    ensures c.None? && lock.kind != Unlock ==> !exists i :: Contains(s, i, lock)
  {
    if lock.kind != Unlock && exists i :: Contains(s, i, lock) then
      var i :| Contains(s, i, lock);
      Some(i)
    else None
  }

  lemma {:induction false} EndClear(s: seq<Lock>, p: nat, grown: Lock)
    requires p == |s| || Clear(s, p, grown)
    ensures Clear(s, p, grown)
  {
  }

  // ---------------------------------------------------------------- conflicts

  /** The test of `locks_conflict`. */
  predicate InTheWay(l: Lock, lock: Lock) {
    && l.owner != lock.owner && lock.start <= l.end && l.start <= lock.end
    && (l.kind == Write || lock.kind == Write)
  }

  /** Some other owner holds some byte of the range, and one of the two locks is a write lock. */
  ghost predicate Conflicts(s: seq<Lock>, lock: Lock) {
    exists owner, b, kind ::
      owner != lock.owner && lock.start <= b <= lock.end && Holds(s, owner, b, kind) &&
          (kind == Write || lock.kind == Write)
  }

  function CommonByte(l: Lock, lock: Lock): int {
    if l.start < lock.start then lock.start else l.start
  }

  lemma {:induction false} SharedByte(l: Lock, lock: Lock)
    requires InTheWay(l, lock) && ValidRange(l) && ValidRange(lock)
    ensures Covers(l, l.owner, CommonByte(l, lock)) && lock.start <= CommonByte(l, lock) <= lock.end
  {
  }

  lemma {:induction false} NobodyInTheWay(s: seq<Lock>, lock: Lock)
    requires forall j :: 0 <= j < |s| ==> !InTheWay(s[j], lock)
    ensures !Conflicts(s, lock)
  {
  }

  // ---------------------------------------------------------------- sequences of requests

  /** Who holds what after a sequence of requests: for each byte and owner the last request that
      covers it decides. */
  ghost predicate LastWins(reqs: seq<Lock>, owner: nat, b: int, kind: Kind)
    decreases |reqs|
  {
    |reqs| > 0 &&
    var last := reqs[|reqs| - 1];
    if Covers(last, owner, b) then kind == last.kind && kind != Unlock
    else LastWins(reqs[..|reqs| - 1], owner, b, kind)
  }

  /** The lists that a sequence of successful requests produces, one after the other. */
  ghost predicate History(lists: seq<seq<Lock>>, reqs: seq<Lock>) {
    && |lists| == |reqs| + 1 && lists[0] == []
    && forall i :: 0 <= i < |reqs| ==> Inserted(lists[i], reqs[i], lists[i + 1])
  }

  /** After any sequence of requests the list is in normal form and means what the requests say. */
  lemma {:induction false} HistoryMeans(lists: seq<seq<Lock>>, reqs: seq<Lock>, owner: nat, b: int, kind: Kind)
    requires History(lists, reqs)
    ensures Normal(lists[|reqs|])
    ensures Holds(lists[|reqs|], owner, b, kind) <==> LastWins(reqs, owner, b, kind)
    decreases |reqs|
  {
    var n := |reqs|;
    if n > 0 {
      HistoryMeans(lists[..n], reqs[..n - 1], owner, b, kind);
      assert Inserted(lists[n - 1], reqs[n - 1], lists[n]);
    }
  }

  ghost predicate Asked(reqs: seq<Lock>, e: Lock) {
    exists r :: r in reqs && r.owner == e.owner && r.kind == e.kind && r.pid == e.pid
  }

  lemma {:induction false} InOthers(s: seq<Lock>, owner: nat, e: Lock)
    ensures e in Others(s, owner) <==> e in s && e.owner != owner
    decreases |s|
  {
    if s != [] {
      InOthers(s[1..], owner, e);
      assert s == [s[0]] + s[1..];
    }
  }

  /** After any sequence of requests every entry is somebody's request: of its owner and kind, with its pid. */
  lemma {:induction false} HistoryPids(lists: seq<seq<Lock>>, reqs: seq<Lock>, e: Lock)
    requires History(lists, reqs) && e in lists[|reqs|]
    requires forall i :: 0 <= i < |reqs| ==> Stamped(lists[i], reqs[i], lists[i + 1])
    ensures Asked(reqs, e)
    decreases |reqs|
  {
    hide Normal, Holds, Others;
    var n := |reqs|;
    if n > 0 {
      var before, lock := lists[n - 1], reqs[n - 1];
      assert Inserted(before, lock, lists[n]) && Stamped(before, lock, lists[n]);
      if !EntryFor(lock, e) {
        var o := Origin(before, lock, lists[n], e);
        HistoryPids(lists[..n], reqs[..n - 1], o);
        var r :| r in reqs[..n - 1] && r.owner == o.owner && r.kind == o.kind && r.pid == o.pid;
        assert r in reqs;
      } else {
        assert lock in reqs;
      }
    }
  }

  /** An entry that is not the request's comes from an old one of the same owner, kind and pid. */
  lemma {:induction false} Origin(before: seq<Lock>, lock: Lock, after: seq<Lock>, e: Lock) returns (o: Lock)
    requires Inserted(before, lock, after) && Stamped(before, lock, after) && e in after && !EntryFor(lock, e)
    ensures o in before && o.owner == e.owner && o.kind == e.kind && o.pid == e.pid
  {
    hide Normal, Holds, Others;
    if e.owner != lock.owner {
      InOthers(after, lock.owner, e);
      InOthers(before, lock.owner, e);
      o := e;
    } else if lock.kind != Unlock && exists c :: Contains(before, c, lock) {
      o := e;
    } else {
      assert Derived(before, lock.owner, e);
      o :| o in before && PieceOf(o, e);
    }
  }

  /** Unlocking everything, as a flush does, leaves the owner nothing and the others everything. */
  lemma {:induction false} FlushReleasesAll(before: seq<Lock>, lock: Lock, after: seq<Lock>, b: int, kind: Kind)
    requires Normal(before) && Inserted(before, lock, after)
    requires lock.kind == Unlock && lock.start == 0 && lock.end == OFFSET_MAX
    ensures !Holds(after, lock.owner, b, kind)
    ensures Others(after, lock.owner) == after
  {
    forall i | 0 <= i < |after| ensures after[i].owner != lock.owner {
      if after[i].owner == lock.owner {
        assert Covers(after[i], lock.owner, after[i].start) && Covers(lock, lock.owner, after[i].start);
        assert Holds(after, lock.owner, after[i].start, after[i].kind);
      }
    }
    OthersAll(after, lock.owner);
  }

  lemma {:induction false} OthersAll(s: seq<Lock>, owner: nat)
    requires forall i :: 0 <= i < |s| ==> s[i].owner != owner
    ensures Others(s, owner) == s
  {
    if s != [] { OthersAll(s[1..], owner); }
  }

  // ---------------------------------------------------------------- conversions

  /** `struct fuse_file_lock` as the kernel sends it. */
  datatype KernelLock = KernelLock(start: int, end: int, kind: Kind, pid: int)

  /** `struct flock`; a length of zero means to the end. */
  datatype Flock = Flock(kind: Kind, start: int, len: int, pid: int)

  /** `convert_fuse_file_lock`. */
  function FromKernel(k: KernelLock): Flock {
    Flock(k.kind, k.start, if k.end == OFFSET_MAX then 0 else k.end - k.start + 1, k.pid)
  }

  /** `flock_to_lock`, with the owner its callers fill in. */
  function ToLock(f: Flock, owner: nat): Lock {
    Lock(f.kind, f.start, if f.len != 0 then f.start + f.len - 1 else OFFSET_MAX, f.pid, owner)
  }

  /** `lock_to_flock`. */
  function FromLock(l: Lock): Flock {
    Flock(l.kind, l.start, if l.end == OFFSET_MAX then 0 else l.end - l.start + 1, l.pid)
  }

  /** `fuse_reply_lock`: an unlocked answer carries no range. */
  function ToKernel(f: Flock): KernelLock {
    if f.kind == Unlock then KernelLock(0, 0, Unlock, f.pid)
    else KernelLock(f.start, if f.len == 0 then OFFSET_MAX else f.start + f.len - 1, f.kind, f.pid)
  }

  /** A kernel range survives the way into the lock list and back out, and no step leaves the range of
      a 64-bit offset. */
  lemma RangeRoundTrip(k: KernelLock, owner: nat)
    requires 0 <= k.start <= k.end <= OFFSET_MAX
    ensures var l := ToLock(FromKernel(k), owner);
      && l == Lock(k.kind, k.start, k.end, k.pid, owner) && ValidRange(l)
      && FromLock(l) == FromKernel(k)
      && ToKernel(FromLock(l)) == (if k.kind == Unlock then KernelLock(0, 0, Unlock, k.pid) else k)
      && 0 <= FromKernel(k).len <= OFFSET_MAX
  {
  }
}
