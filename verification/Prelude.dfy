/** Small shared definitions. */
module Prelude {
  datatype Option<+T> = None | Some(value: T)

  newtype byte = x: int | 0 <= x < 256

  /** C `int` limits. */
  const INT_MIN: int := -0x8000_0000
  const INT_MAX: int := 0x7fff_ffff
  const UINT_MAX: nat := 0xffff_ffff

  const ENOENT: int := 2
  const ENOMEM: int := 12
  const EBUSY: int := 16

  /** The size to which a buffer grows: doubled until `need` fits, or the largest size. */
  method GrownSize(size: nat, need: nat) returns (r: nat)
    requires 0 < size <= UINT_MAX && need <= UINT_MAX
    ensures need <= r <= UINT_MAX && size <= r
  {
    r := size;
    while r < need
      invariant size <= r <= UINT_MAX
      decreases UINT_MAX - r
    {
      if r >= 0x8000_0000 {
        r := UINT_MAX;
      } else {
        r := r * 2;
      }
    }
  }

  /** Removing one member from a finite set that holds it takes exactly one away from its size. */
  lemma RemoveOne<T>(s: set<T>, t: set<T>, x: T)
    requires x !in s && t == s + {x}
    ensures |t| == |s| + 1
  {
  }

  lemma SubsetSize<T>(s: set<T>, t: set<T>)
    requires s <= t
    ensures |s| <= |t|
  {
    assert t == s + (t - s);
  }

  lemma {:induction false} BelowSize(s: set<nat>, n: nat)
    requires forall k :: k in s ==> k < n
    ensures |s| <= n
  {
    if n > 0 {
      BelowSize(s - {n - 1}, n - 1);
      SubsetSize(s, (s - {n - 1}) + {n - 1});
    } else {
      assert s == {};
    }
  }

  lemma {:induction false} AllFrom(s: set<nat>, lo: nat, n: nat)
    requires forall i :: lo <= i < lo + n ==> i in s
    ensures |s| >= n
    decreases n
  {
    if n > 0 {
      AllFrom(s - {lo + n - 1}, lo, n - 1);
      assert s == (s - {lo + n - 1}) + {lo + n - 1};
    }
  }

  // ---------------------------------------------------------------- lists of numbers

  ghost predicate Distinct(s: seq<nat>) {
    forall i, j :: 0 <= i < j < |s| ==> s[i] != s[j]
  }

  function Members(s: seq<nat>): set<nat> {
    set x | x in s
  }

  lemma {:induction false} DistinctSize(s: seq<nat>)
    requires Distinct(s)
    ensures |Members(s)| == |s|
    decreases |s|
  {
    if s == [] {
      assert Members(s) == {};
    } else {
      var rest := s[1..];
      DistinctSize(rest);
      assert s == [s[0]] + rest;
      assert Members(s) == Members(rest) + {s[0]};
      assert s[0] !in rest;
    }
  }

  /** The list once `x` has been taken off it. */
  function Without(list: seq<nat>, x: nat): (r: seq<nat>)
    ensures forall y :: y in r <==> y in list && y != x
  {
    if list == [] then []
    else if list[0] == x then Without(list[1..], x)
    else [list[0]] + Without(list[1..], x)
  }

  lemma {:induction false} WithoutDistinct(s: seq<nat>, x: nat)
    requires Distinct(s)
    ensures Distinct(Without(s, x))
    decreases |s|
  {
    if s != [] {
      WithoutDistinct(s[1..], x);
      assert s[0] !in s[1..];
      assert s[0] !in Without(s[1..], x);
    }
  }

  /** The list without its i-th element. */
  function DropAt<T>(s: seq<T>, i: nat): seq<T>
    requires i < |s|
  {
    s[..i] + s[i + 1..]
  }

  /** Quotient and remainder are what a decomposition says. */
  lemma RemainderIs(h: nat, m: nat, q: nat, r: nat)
    requires m > 0 && r < m && h == m * q + r
    ensures h % m == r && h / m == q
  {
    var d: int := h / m - q;
    assert m * d == r - h % m;
    assert d >= 1 ==> m * d >= m;
    assert d <= -1 ==> m * d <= 0 - m;
  }
}
