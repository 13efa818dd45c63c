/** Scatter/gather copies between buffer vectors (`struct fuse_bufvec`) over one flat memory. */
module BufCopy {
  import opened Prelude

  const SIZE_MAX: nat := 0xffff_ffff_ffff_ffff

  /** `struct fuse_buf` for memory: `size` bytes from address `addr`. */
  datatype Buf = Buf(addr: nat, size: nat)

  /** The addresses of a buffer from offset `off` on. */
  function Range(b: Buf, off: nat): (r: seq<nat>)
    requires off <= b.size
    ensures |r| == b.size - off && forall i :: 0 <= i < |r| ==> r[i] == b.addr + off + i
  {
    seq(b.size - off, i requires 0 <= i => b.addr + off + i)
  }

  /** The addresses that a vector still has before it, from buffer `idx` at offset `off`: the vector laid
      out flat. */
  function Flat(bufs: seq<Buf>, idx: nat, off: nat): seq<nat>
    requires idx < |bufs| ==> off <= bufs[idx].size
    decreases |bufs| - idx
  {
    if idx >= |bufs| then [] else Range(bufs[idx], off) + Flat(bufs, idx + 1, 0)
  }

  function Total(bufs: seq<Buf>): nat {
    if bufs == [] then 0 else Total(bufs[..|bufs| - 1]) + bufs[|bufs| - 1].size
  }

  lemma {:induction false} TotalPrefix(bufs: seq<Buf>, i: nat)
    requires i <= |bufs|
    ensures Total(bufs[..i]) <= Total(bufs)
    ensures i < |bufs| ==> Total(bufs[..i + 1]) == Total(bufs[..i]) + bufs[i].size
    decreases |bufs| - i
  {
    if i < |bufs| {
      assert bufs[..i + 1][..i] == bufs[..i];
      TotalPrefix(bufs, i + 1);
    } else {
      assert bufs[..i] == bufs;
    }
  }

  /** `fuse_buf_size`: the total, or SIZE_MAX if it does not fit below that. */
  method BufSize(bufs: seq<Buf>) returns (size: nat)
    ensures size == if Total(bufs) >= SIZE_MAX then SIZE_MAX else Total(bufs)
  {
    size := 0;
    for i := 0 to |bufs|
      invariant size == Total(bufs[..i]) && size < SIZE_MAX
    {
      TotalPrefix(bufs, i);
      TotalPrefix(bufs, i + 1);
      if bufs[i].size >= SIZE_MAX - size {
        return SIZE_MAX;
      }
      size := size + bufs[i].size;
    }
    assert bufs[..|bufs|] == bufs;
  }

  /** `struct fuse_bufvec`. */
  class BufVec {
    const bufs: seq<Buf>
    var idx: nat
    var off: nat

    constructor (bufs: seq<Buf>, idx: nat, off: nat)
      requires idx <= |bufs| && (idx < |bufs| ==> off <= bufs[idx].size)
      ensures Valid() && this.bufs == bufs && this.idx == idx && this.off == off
    {
      this.bufs := bufs;
      this.idx := idx;
      this.off := off;
    }

    ghost predicate Valid()
      reads this
    {
      idx <= |bufs| && (idx < |bufs| ==> off <= bufs[idx].size)
    }

    /** What is left to read or write. */
    ghost function Left(): seq<nat>
      reads this
      requires Valid()
    {
      Flat(bufs, idx, off)
    }

    /** `fuse_bufvec_advance`: whether there is more to come. */
    method Advance(len: nat) returns (more: bool)
      requires Valid() && (idx < |bufs| ==> off + len <= bufs[idx].size)
      modifies this
      ensures Valid()
      ensures old(idx) < |bufs| ==> len <= |old(Left())| && Left() == old(Left())[len..]
      ensures old(idx) == |bufs| ==> idx == old(idx) && off == old(off)
      ensures more <==> idx < |bufs|
      ensures idx >= old(idx)
      ensures old(idx) < |bufs| ==>
        var c := Moved(bufs, Cursor(old(idx), old(off)), len); idx == c.idx && (more ==> off == c.off)
    {
      if idx >= |bufs| { return false; }
      FlatAdvance(bufs, idx, off, len);
      off := off + len;
      assert off <= bufs[idx].size;
      if off == bufs[idx].size {
        idx := idx + 1;
        if idx == |bufs| { return false; }
        off := 0;
      }
      return true;
    }
  }

  lemma {:induction false} FlatAdvance(bufs: seq<Buf>, idx: nat, off: nat, len: nat)
    requires idx < |bufs| && off + len <= bufs[idx].size
    ensures len <= |Flat(bufs, idx, off)|
    ensures Flat(bufs, idx, off)[len..] == Flat(bufs, idx, off + len)
    ensures off + len == bufs[idx].size ==> Flat(bufs, idx, off)[len..] == Flat(bufs, idx + 1, 0)
  {
    var r, rest := Range(bufs[idx], off), Flat(bufs, idx + 1, 0);
    assert r[len..] == Range(bufs[idx], off + len);
    assert (r + rest)[len..] == r[len..] + rest;
    if off + len == bufs[idx].size {
      assert r[len..] == [];
      assert r[len..] + rest == rest;
    }
  }

  /** The addresses of the current buffers are the beginning of what is left. */
  lemma {:induction false} FlatStarts(bufs: seq<Buf>, idx: nat, off: nat, len: nat)
    requires idx < |bufs| && off + len <= bufs[idx].size
    ensures len <= |Flat(bufs, idx, off)|
    ensures forall i :: 0 <= i < len ==> Flat(bufs, idx, off)[i] == bufs[idx].addr + off + i
  {
  }

  lemma {:induction false} PieceAt(bufs: seq<Buf>, idx: nat, off: nat, len: nat, all: seq<nat>, n: nat)
    requires idx < |bufs| && off + len <= bufs[idx].size && n <= |all| && Flat(bufs, idx, off) == all[n..]
    ensures n + len <= |all|
    ensures forall i :: n <= i < n + len ==> all[i] == bufs[idx].addr + off + (i - n)
  {
    FlatStarts(bufs, idx, off, len);
    forall i | n <= i < n + len ensures all[i] == bufs[idx].addr + off + (i - n) {
      assert all[i] == all[n..][i - n];
    }
  }

  ghost predicate InBounds(s: seq<nat>, n: nat) {
    forall i :: 0 <= i < |s| ==> s[i] < n
  }

  function Min(a: nat, b: nat): nat { if a < b then a else b }

  /** `fuse_buf_copy_one` between memory buffers (memcpy, or memmove if they overlap). */
  method CopyOne(mem: array<byte>, dst: nat, src: nat, len: nat)
    requires dst + len <= mem.Length && src + len <= mem.Length
    modifies mem
    ensures forall a :: dst <= a < dst + len ==> mem[a] == old(mem[a - dst + src])
    ensures forall a :: 0 <= a < mem.Length && !(dst <= a < dst + len) ==> mem[a] == old(mem[a])
  {
    if dst != src {
      forall i | 0 <= i < len {
        mem[dst + i] := mem[src + i];
      }
    }
  }

  /** From memory `was` to memory `now`: the first `n` bytes of the flat destination are the first `n`
      bytes of the flat source, and nothing else changed. */
  ghost predicate Copied(was: seq<byte>, now: seq<byte>, dst: seq<nat>, src: seq<nat>, n: nat)
    requires n <= |dst| && n <= |src| && |was| == |now|
    requires InBounds(dst, |was|) && InBounds(src, |was|)
  {
    && (forall i :: 0 <= i < n ==> now[dst[i]] == was[src[i]])
    && (forall a :: 0 <= a < |was| && a !in dst[..n] ==> now[a] == was[a])
  }

  lemma {:induction false} CopiedMore(
      was: seq<byte>, mid: seq<byte>, now: seq<byte>, D: seq<nat>, S: seq<nat>, n: nat, len: nat)
    requires n + len <= |D| && n + len <= |S| && |was| == |mid| == |now|
    requires InBounds(D, |was|) && InBounds(S, |was|)
    requires Distinct(D) && (forall a :: a in D ==> a !in S) && Copied(was, mid, D, S, n)
    requires forall i :: n <= i < n + len ==> now[D[i]] == mid[S[i]]
    requires forall a :: 0 <= a < |was| && a !in D[n..n + len] ==> now[a] == mid[a]
    ensures Copied(was, now, D, S, n + len)
  {
    assert D[..n + len] == D[..n] + D[n..n + len];
    forall i | 0 <= i < n + len ensures now[D[i]] == was[S[i]] {
      if i < n {
        assert D[i] !in D[n..n + len];
      } else {
        assert S[i] in S && S[i] !in D[..n];
      }
    }
  }

  /** `fuse_buf_copy` for distinct vectors of memory buffers that do not overlap: it copies exactly as much
      as the shorter side has, byte for byte as if both were flat, and moves the source cursor by
      exactly that much. */
  method Copy(mem: array<byte>, dstv: BufVec, srcv: BufVec) returns (copied: nat)
    requires dstv != srcv && dstv.Valid() && srcv.Valid()
    requires InBounds(dstv.Left(), mem.Length) && InBounds(srcv.Left(), mem.Length)
    requires Distinct(dstv.Left()) && (forall a :: a in dstv.Left() ==> a !in srcv.Left())
    modifies mem, dstv, srcv
    ensures copied == Min(|old(dstv.Left())|, |old(srcv.Left())|)
    ensures Copied(old(mem[..]), mem[..], old(dstv.Left()), old(srcv.Left()), copied)
    ensures srcv.Valid() && srcv.Left() == old(srcv.Left())[copied..]
  {
    ghost var D, S, was := dstv.Left(), srcv.Left(), mem[..];
    copied := 0;
    while srcv.idx < |srcv.bufs| && dstv.idx < |dstv.bufs|
      invariant srcv.Valid() && dstv.Valid()
      invariant copied <= |D| && copied <= |S|
      invariant srcv.Left() == S[copied..] && dstv.Left() == D[copied..]
      invariant Copied(was, mem[..], D, S, copied)
      decreases |srcv.bufs| - srcv.idx + |dstv.bufs| - dstv.idx
    {
      var src, dst := srcv.bufs[srcv.idx], dstv.bufs[dstv.idx];
      var len := Min(src.size - srcv.off, dst.size - dstv.off);
      PieceAt(srcv.bufs, srcv.idx, srcv.off, len, S, copied);
      PieceAt(dstv.bufs, dstv.idx, dstv.off, len, D, copied);
      CopyPiece(mem, dst.addr + dstv.off, src.addr + srcv.off, len, D, S, copied, was);
      copied := copied + len;
      var more := srcv.Advance(len);
      if !more { break; }
      more := dstv.Advance(len);
      if !more { break; }
    }
  }

  lemma {:induction false} InPiece(D: seq<nat>, n: nat, len: nat, dst: nat, a: nat)
    requires n + len <= |D| && (forall i :: n <= i < n + len ==> D[i] == dst + (i - n)) && dst <= a < dst + len
    ensures a in D[n..n + len]
  {
    assert D[n..n + len][a - dst] == D[n + (a - dst)];
  }

  /** One transfer of the loop: the next `len` bytes of both flat sequences. */
  method CopyPiece(
      mem: array<byte>, dst: nat, src: nat, len: nat, ghost D: seq<nat>, ghost S: seq<nat>, ghost n: nat,
      ghost was: seq<byte>)
    requires n + len <= |D| && n + len <= |S| && |was| == mem.Length
    requires InBounds(D, |was|) && InBounds(S, |was|)
    requires Distinct(D) && (forall a :: a in D ==> a !in S) && Copied(was, mem[..], D, S, n)
    requires forall i :: n <= i < n + len ==> D[i] == dst + (i - n) && S[i] == src + (i - n)
    modifies mem
    ensures Copied(was, mem[..], D, S, n + len)
  {
    hide Copied, Distinct;
    ghost var mid := mem[..];
    if len > 0 {
      assert D[n + len - 1] == dst + (len - 1) && S[n + len - 1] == src + (len - 1);
      CopyOne(mem, dst, src, len);
    }
    PieceCopied(mid, mem[..], dst, src, D, S, n, len);
    CopiedMore(was, mid, mem[..], D, S, n, len);
  }

  /** A copied piece in terms of the flat sequences. */
  lemma {:induction false} PieceCopied(
      mid: seq<byte>, now: seq<byte>, dst: nat, src: nat, D: seq<nat>, S: seq<nat>, n: nat, len: nat)
    requires n + len <= |D| && n + len <= |S| && |mid| == |now| && InBounds(D, |mid|) && InBounds(S, |mid|)
    requires forall i :: n <= i < n + len ==> D[i] == dst + (i - n) && S[i] == src + (i - n)
    requires len > 0 ==> dst + len <= |mid| && src + len <= |mid|
    requires forall a :: dst <= a < dst + len ==> now[a] == mid[a - dst + src]
    requires forall a :: 0 <= a < |mid| && !(dst <= a < dst + len) ==> now[a] == mid[a]
    ensures forall i :: n <= i < n + len ==> now[D[i]] == mid[S[i]]
    ensures forall a :: 0 <= a < |mid| && a !in D[n..n + len] ==> now[a] == mid[a]
  {
    forall a | 0 <= a < |mid| && a !in D[n..n + len] ensures now[a] == mid[a] {
      if dst <= a < dst + len { InPiece(D, n, len, dst, a); }
    }
  }

  lemma {:induction false} FlatEnd(bufs: seq<Buf>)
    ensures forall off :: Flat(bufs, |bufs|, off) == []
  {
  }

  // ---------------------------------------------------------------- transfers that may fail or fall short

  /** Where a vector stands. */
  datatype Cursor = Cursor(idx: nat, off: nat)

  predicate Inside(bufs: seq<Buf>, c: Cursor) {
    c.idx < |bufs| && c.off <= bufs[c.idx].size
  }

  function Moved(bufs: seq<Buf>, c: Cursor, n: nat): Cursor
    requires Inside(bufs, c)
  {
    if c.off + n == bufs[c.idx].size then Cursor(c.idx + 1, 0) else Cursor(c.idx, c.off + n)
  }

  /** Where a transfer starts on both sides. */
  datatype Start = Start(src: Cursor, dst: Cursor)

  /** Two vectors and the outcome of each transfer between them. */
  datatype Job = Job(dst: seq<Buf>, src: seq<Buf>, results: nat -> int) {
    predicate Within(t: Start) {
      Inside(src, t.src) && Inside(dst, t.dst)
    }

    /** The most a transfer can move: up to the end of a buffer on either side. */
    function Piece(t: Start): nat
      requires Within(t)
    {
      Min(src[t.src.idx].size - t.src.off, dst[t.dst.idx].size - t.dst.off)
    }

    function After(t: Start): Start
      requires Within(t)
    {
      Start(Moved(src, t.src, Piece(t)), Moved(dst, t.dst, Piece(t)))
    }

    /** The transfers made, one after the other: none failed, each but the last was full and the next one starts
        where it ended. */
    ghost predicate Made(first: Start, at: seq<Start>) {
      && (forall k :: 0 <= k < |at| ==> Within(at[k]) && results(k) >= 0)
      && (|at| > 0 ==> at[0] == first)
      && (forall k :: 0 < k < |at| ==> Follows(at[k - 1], at[k], k - 1))
    }

    ghost predicate Follows(t: Start, u: Start, k: nat) {
      Within(t) && results(k) >= Piece(t) && u == After(t)
    }

    /** What the transfers moved, each cut to its piece. */
    ghost function Sum(at: seq<Start>): nat
      decreases |at|
    {
      if at == [] then 0
      else
        var m := |at| - 1;
        Sum(at[..m]) + Gave(at[m], m)
    }

    ghost function Gave(t: Start, k: nat): nat {
      if Within(t) && results(k) >= 0 then Min(results(k), Piece(t)) else 0
    }

    /** There is something left to transfer on both sides, the transfers so far were full, and the next one fails. */
    ghost predicate Fails(first: Start, at: seq<Start>) {
      var m := |at|;
      && results(m) < 0
      && if m == 0 then Within(first)
         else Within(at[m - 1]) && results(m - 1) >= Piece(at[m - 1]) && Within(After(at[m - 1]))
    }

    /** Why no further transfer is made: the next one fails, the last one was short, or a side is at its end. */
    ghost predicate Stops(first: Start, at: seq<Start>) {
      var m := |at|;
      || Fails(first, at)
      || (m == 0 && !Within(first))
      || (m > 0 && Within(at[m - 1]) && (results(m - 1) < Piece(at[m - 1]) || !Within(After(at[m - 1]))))
    }

    lemma {:induction false} MadeMore(first: Start, at: seq<Start>, t: Start)
      requires Made(first, at) && Within(t) && results(|at|) >= 0
      requires if at == [] then t == first else Follows(at[|at| - 1], t, |at| - 1)
      ensures Made(first, at + [t]) && Sum(at + [t]) == Sum(at) + Min(results(|at|), Piece(t))
    {
      var more := at + [t];
      assert more[..|at|] == at;
      forall k | 0 < k < |more| ensures Follows(more[k - 1], more[k], k - 1) {
        assert more[k - 1] == at[k - 1];
        if k < |at| { assert more[k] == at[k] && Follows(at[k - 1], at[k], k - 1); }
      }
    }

    lemma {:induction false} ShortFirst(first: Start, at: seq<Start>)
      requires Made(first, at) && Stops(first, at) && Within(first) && 0 <= results(0) < Piece(first)
      ensures Sum(at) == results(0) && !Fails(first, at)
    {
      assert |at| > 1 ==> Follows(at[0], at[1], 0);
      assert |at| == 1 && at[..0] == [];
    }
  }

  /** The general loop of `fuse_buf_copy`, where a file descriptor may be on either side: the k-th transfer
      gives `results(k)`, an error if negative, else a count that may fall short. An error is returned
      only if nothing was copied; otherwise the sum of what the transfers made gave, and the source
      cursor has moved by exactly it. The loop stops at the first transfer that fails or falls short. */
  method CopyAny(dstv: BufVec, srcv: BufVec, results: nat -> int) returns (res: int, ghost at: seq<Start>)
    requires dstv != srcv && dstv.Valid() && srcv.Valid()
    modifies dstv, srcv
    ensures srcv.Valid()
    ensures res < 0 ==> srcv.Left() == old(srcv.Left())
    ensures res >= 0 ==> res <= Min(|old(dstv.Left())|, |old(srcv.Left())|) && srcv.Left() == old(srcv.Left())[res..]
    ensures var job, first := Job(dstv.bufs, srcv.bufs, results), old(Begins(dstv, srcv));
      && job.Made(first, at) && job.Stops(first, at)
      && res == (if job.Sum(at) == 0 && job.Fails(first, at) then results(|at|) else job.Sum(at))
      && (job.Within(first) && 0 <= results(0) < job.Piece(first) ==> res == results(0))
    ensures res >= 0 && (forall k :: results(k) >= SIZE_MAX) && (forall b :: b in srcv.bufs ==> b.size <= SIZE_MAX) ==>
              res == Min(|old(dstv.Left())|, |old(srcv.Left())|)
  {
    hide Flat, Job.Made, Job.Sum, Job.Stops, Job.Fails;
    ghost var job, first := Job(dstv.bufs, srcv.bufs, results), Begins(dstv, srcv);
    res, at := Transfers(dstv, srcv, results);
    if job.Within(first) && 0 <= results(0) < job.Piece(first) { job.ShortFirst(first, at); }
    FullTransfers(job, first, at);
  }

  /** The loop itself. */
  method Transfers(dstv: BufVec, srcv: BufVec, results: nat -> int) returns (res: int, ghost at: seq<Start>)
    requires dstv != srcv && dstv.Valid() && srcv.Valid()
    modifies dstv, srcv
    ensures srcv.Valid()
    ensures res < 0 ==> srcv.Left() == old(srcv.Left())
    ensures res >= 0 ==> res <= Min(|old(dstv.Left())|, |old(srcv.Left())|) && srcv.Left() == old(srcv.Left())[res..]
    ensures var job, first := Job(dstv.bufs, srcv.bufs, results), old(Begins(dstv, srcv));
      && job.Made(first, at) && job.Stops(first, at)
      && res == (if job.Sum(at) == 0 && job.Fails(first, at) then results(|at|) else job.Sum(at))
  {
    hide Flat, Job.Made, Job.Sum, Job.Stops, Job.Fails, Job.Follows;
    ghost var D, S := dstv.Left(), srcv.Left();
    ghost var job, first := Job(dstv.bufs, srcv.bufs, results), Begins(dstv, srcv);
    var copied: nat := 0;
    var k := 0;
    at := [];
    NoneMade(job, first);
    SkipTwice(S, 0, 0);
    ghost var stopped := false;
    while srcv.idx < |srcv.bufs| && dstv.idx < |dstv.bufs|
      invariant srcv.Valid() && dstv.Valid()
      invariant copied <= |D| && copied <= |S|
      invariant srcv.Left() == S[copied..] && |dstv.Left()| == |D| - copied
      invariant k == |at| && job.Made(first, at) && copied == job.Sum(at)
      invariant Ready(job, first, at, dstv, srcv) && !stopped
      decreases |srcv.bufs| - srcv.idx + |dstv.bufs| - dstv.idx
    {
      ghost var t := Begins(dstv, srcv);
      var src, dst := srcv.bufs[srcv.idx], dstv.bufs[dstv.idx];
      var len := Min(src.size - srcv.off, dst.size - dstv.off);
      var got := results(k);
      k := k + 1;
      if got < 0 {
        FailStops(job, first, at, t);
        stopped := true;
        if copied == 0 {
          return got, at;
        }
        break;
      }
      var n := Min(got, len);
      job.MadeMore(first, at, t);
      at := at + [t];
      var go := MoveBoth(dstv, srcv, n, len);
      SkipTwice(S, copied, n);
      copied := copied + n;
      if go { StepReady(job, t, at, Begins(dstv, srcv)); }
      if !go {
        MoveStops(job, first, at, t);
        stopped := true;
        break;
      }
    }
    if !stopped { EndStops(job, first, at, Begins(dstv, srcv)); }
    res := copied;
  }

  lemma {:induction false} SkipTwice(s: seq<nat>, a: nat, b: nat)
    requires a + b <= |s|
    ensures s[a..][b..] == s[a + b..] && s[0..] == s
  {
  }

  lemma {:induction false} StepReady(job: Job, t: Start, at: seq<Start>, u: Start)
    requires at != [] && job.Within(t) && job.results(|at| - 1) >= job.Piece(t) && u == job.After(t)
    ensures job.Follows(t, u, |at| - 1)
  {
  }

  lemma {:induction false} FailStops(job: Job, first: Start, at: seq<Start>, t: Start)
    requires job.results(|at|) < 0 && job.Within(t)
    requires if at == [] then t == first else job.Follows(at[|at| - 1], t, |at| - 1)
    ensures job.Fails(first, at) && job.Stops(first, at)
  {
  }

  /** A transfer that ended a side, or was short. */
  lemma {:induction false} MoveStops(job: Job, first: Start, at: seq<Start>, t: Start)
    requires at != [] && at[|at| - 1] == t && job.Within(t)
    requires job.results(|at| - 1) < job.Piece(t) || !job.Within(job.After(t))
    ensures job.Stops(first, at) && !job.Fails(first, at)
  {
  }

  lemma {:induction false} EndStops(job: Job, first: Start, at: seq<Start>, t: Start)
    requires !job.Within(t)
    requires if at == [] then t == first else job.Follows(at[|at| - 1], t, |at| - 1)
    ensures job.Stops(first, at) && !job.Fails(first, at)
  {
  }

  /** How many bytes a side has left from a cursor on. */
  ghost function Remaining(bufs: seq<Buf>, c: Cursor): nat {
    if c.idx <= |bufs| && (c.idx < |bufs| ==> c.off <= bufs[c.idx].size) then |Flat(bufs, c.idx, c.off)| else 0
  }

  lemma {:induction false} MovedRemaining(bufs: seq<Buf>, c: Cursor, n: nat)
    requires Inside(bufs, c) && c.off + n <= bufs[c.idx].size
    ensures n <= Remaining(bufs, c) && Remaining(bufs, Moved(bufs, c, n)) == Remaining(bufs, c) - n
  {
    FlatAdvance(bufs, c.idx, c.off, n);
  }

  lemma {:induction false} NothingRemains(bufs: seq<Buf>, c: Cursor)
    requires !Inside(bufs, c)
    ensures Remaining(bufs, c) == 0
  {
  }

  ghost predicate AllFull(job: Job) {
    (forall k :: job.results(k) >= SIZE_MAX) && (forall b :: b in job.src ==> b.size <= SIZE_MAX)
  }

  /** Full transfers, one after the other, use up both sides alike. */
  lemma {:induction false} FullSoFar(job: Job, first: Start, at: seq<Start>, k: nat)
    requires job.Made(first, at) && AllFull(job) && k <= |at|
    ensures k > 0 ==> job.Within(at[k - 1]) && job.results(k - 1) >= job.Piece(at[k - 1])
    ensures var t := if k == 0 then first else job.After(at[k - 1]);
      && Remaining(job.src, t.src) + job.Sum(at[..k]) == Remaining(job.src, first.src)
      && Remaining(job.dst, t.dst) + job.Sum(at[..k]) == Remaining(job.dst, first.dst)
    decreases k
  {
    hide Remaining, Moved;
    if k > 0 {
      FullSoFar(job, first, at, k - 1);
      var t := at[k - 1];
      assert job.Within(t) && job.src[t.src.idx] in job.src;
      if k > 1 { assert job.Follows(at[k - 2], at[k - 1], k - 2); }
      assert at[..k][..k - 1] == at[..k - 1];
      MovedRemaining(job.src, t.src, job.Piece(t));
      MovedRemaining(job.dst, t.dst, job.Piece(t));
    }
  }

  /** Transfers that never fall short move all there is on the shorter side. */
  lemma {:induction false} FullTransfers(job: Job, first: Start, at: seq<Start>)
    requires job.Made(first, at) && job.Stops(first, at)
    ensures AllFull(job) ==> job.Sum(at) == Min(Remaining(job.dst, first.dst), Remaining(job.src, first.src))
  {
    if AllFull(job) {
      hide Remaining, Moved, Job.Made;
      FullSoFar(job, first, at, |at|);
      assert at[..|at|] == at;
      var t := if at == [] then first else job.After(at[|at| - 1]);
      if !Inside(job.src, t.src) { NothingRemains(job.src, t.src); }
      if !Inside(job.dst, t.dst) { NothingRemains(job.dst, t.dst); }
    }
  }

  /** The end of a turn: move both cursors, and say whether to go on. */
  method MoveBoth(dstv: BufVec, srcv: BufVec, n: nat, len: nat) returns (go: bool)
    requires dstv != srcv && dstv.Valid() && srcv.Valid() && srcv.idx < |srcv.bufs| && dstv.idx < |dstv.bufs|
    requires n <= len == Min(srcv.bufs[srcv.idx].size - srcv.off, dstv.bufs[dstv.idx].size - dstv.off)
    modifies dstv, srcv
    ensures srcv.Valid() && dstv.Valid()
    ensures n <= |old(srcv.Left())| && n <= |old(dstv.Left())| && srcv.Left() == old(srcv.Left())[n..]
    ensures go ==> n == len && srcv.idx < |srcv.bufs| && dstv.idx < |dstv.bufs|
    ensures go ==> |dstv.Left()| == |old(dstv.Left())| - n
    ensures go ==> Begins(dstv, srcv).src == Moved(srcv.bufs, old(Begins(dstv, srcv).src), len)
    ensures go ==> Begins(dstv, srcv).dst == Moved(dstv.bufs, old(Begins(dstv, srcv).dst), len)
    ensures go ==> srcv.idx + dstv.idx > old(srcv.idx + dstv.idx)
    ensures !go ==> n < len || Moved(srcv.bufs, old(Begins(dstv, srcv).src), len).idx >= |srcv.bufs|
                            || Moved(dstv.bufs, old(Begins(dstv, srcv).dst), len).idx >= |dstv.bufs|
    ensures srcv.idx < |srcv.bufs| && dstv.idx < |dstv.bufs| ==> go || n < len
    ensures !go && n == len ==> srcv.idx >= |srcv.bufs| || dstv.idx >= |dstv.bufs|
  {
    FlatStarts(dstv.bufs, dstv.idx, dstv.off, n);
    var more := srcv.Advance(n);
    if !more { return false; }
    more := dstv.Advance(n);
    return more && n == len;
  }

  /** The vectors stand where the next transfer starts. */
  ghost predicate Ready(job: Job, first: Start, at: seq<Start>, dstv: BufVec, srcv: BufVec)
    reads dstv, srcv
  {
    if at == [] then Begins(dstv, srcv) == first
    else job.Follows(at[|at| - 1], Begins(dstv, srcv), |at| - 1)
  }

  lemma {:induction false} NoneMade(job: Job, first: Start)
    ensures job.Made(first, []) && job.Sum([]) == 0
  {
  }

  ghost function Begins(dstv: BufVec, srcv: BufVec): Start
    reads dstv, srcv
  {
    Start(Cursor(srcv.idx, srcv.off), Cursor(dstv.idx, dstv.off))
  }
}
