/** The slab allocator behind the nodes: one page per slab, carved into cells. */
module Slab {
  import opened Prelude

  /** A page and what it is cut into. */
  datatype Geometry = Geometry(pagesize: nat, header: nat, cell: nat) {
    ghost predicate Valid() {
      cell > 0 && header + cell <= pagesize
    }

    /** How many cells fit behind the header. */
    function Count(): (n: nat)
      requires Valid()
    {
      (pagesize - header) / cell
    }

    /** The cells sit at the end of the page. */
    function First(): int
      requires Valid()
    {
      pagesize - Count() * cell
    }

    function Address(base: nat, i: nat): int
      requires Valid()
    {
      base + First() + i * cell
    }

    lemma Fits()
      requires Valid()
      ensures Count() >= 1 && Count() * cell <= pagesize - header && First() >= header
      ensures (Count() + 1) * cell > pagesize - header
    {
    }

    /** `node_to_slab`: a cell lies inside its page and behind the header; rounding its address down to a page
        gives its slab, and the cell number can be read off the rest. */
    lemma {:induction false} AddressDetermines(base: nat, i: nat)
      requires Valid() && base % pagesize == 0 && i < Count()
      ensures var a := Address(base, i);
        && base + header <= a && a + cell <= base + pagesize
        && a - a % pagesize == base && (a - base - First()) / cell == i
    {
      Fits();
      var a := Address(base, i);
      Monotone(i + 1, Count(), cell);
      assert (i + 1) * cell == i * cell + cell;
      var q := base / pagesize;
      assert base == pagesize * q;
      RemainderIs(a, pagesize, q, a - base);
      RemainderIs(cell * i, cell, i, 0);
    }

    static lemma Monotone(x: nat, y: nat, c: nat)
      requires x <= y
      ensures x * c <= y * c
    {
    }
  }

  /** A cell: the page it is on and its number there. */
  type Cell = (nat, nat)

  /** `struct node_slab`: the numbers of its free cells, and how many are in use. */
  datatype Page = Page(free: seq<nat>, used: nat)

  /** The numbers below `n`, in order. */
  function UpTo(n: nat): (r: seq<nat>)
    ensures |r| == n && forall i :: 0 <= i < n ==> r[i] == i
  {
    seq(n, i requires 0 <= i => i)
  }

  /** A page in order: its free cells are distinct, used plus free is its capacity, some cell is in use, and
      exactly the cells that are not free are live. */
  ghost predicate PageOk(n: nat, base: nat, p: Page, live: set<(nat, nat)>) {
    && Distinct(p.free) && (forall i :: i in p.free ==> i < n)
    && p.used + |p.free| == n && p.used > 0
    && (forall i :: 0 <= i < n ==> ((base, i) in live <==> i !in p.free))
  }

  /** A page is on the partial list iff it has a free cell, on the full list iff it has none, once. */
  ghost predicate ListsOk(pages: map<nat, Page>, partial: seq<nat>, full: seq<nat>) {
    && Distinct(partial) && Distinct(full)
    && (forall b :: b in partial <==> b in pages && pages[b].free != [])
    && (forall b :: b in full <==> b in pages && pages[b].free == [])
  }

  ghost predicate PagesOk(n: nat, pagesize: nat, pages: map<nat, Page>, live: set<(nat, nat)>)
    requires pagesize > 0
  {
    && (forall b :: b in pages ==> b % pagesize == 0 && PageOk(n, b, pages[b], live))
    && (forall c: (nat, nat) :: c in live ==> c.0 in pages && c.1 < n)
  }

  // ---------------------------------------------------------------- handing out a cell

  lemma {:induction false} TakePage(n: nat, base: nat, p: Page, live: set<(nat, nat)>)
    requires PageOk(n, base, p, live) && p.free != []
    ensures p.free[0] < n && (base, p.free[0]) !in live
    ensures PageOk(n, base, Page(p.free[1..], p.used + 1), live + {(base, p.free[0])})
  {
    var cell, rest := p.free[0], p.free[1..];
    assert p.free == [cell] + rest && cell in p.free;
    assert cell !in rest;
    forall i | i in rest ensures i < n {
      assert i in p.free;
    }
    forall i | 0 <= i < n ensures (base, i) in live + {(base, cell)} <==> i !in rest {
      assert i in p.free <==> i == cell || i in rest;
    }
  }

  lemma {:induction false} NewPage(n: nat, base: nat, live: set<(nat, nat)>)
    requires n >= 1 && (forall i :: (base, i) !in live)
    ensures PageOk(n, base, Page(UpTo(n)[1..], 1), live + {(base, 0)})
  {
    var all := UpTo(n);
    var rest := all[1..];
    assert forall j :: 0 <= j < |rest| ==> rest[j] == all[j + 1] == j + 1;
    forall i | 0 < i < n ensures i in rest {
      assert rest[i - 1] == i;
    }
    assert 0 !in rest;
  }

  /** Changing one page and its cells keeps the others. */
  lemma {:induction false} OnePage(
      n: nat, pagesize: nat, pages: map<nat, Page>, live: set<(nat, nat)>, base: nat, p: Page, live': set<(nat, nat)>)
    requires pagesize > 0 && PagesOk(n, pagesize, pages, live) && base % pagesize == 0 && PageOk(n, base, p, live')
    requires forall c: (nat, nat) :: c.0 != base ==> (c in live <==> c in live')
    requires forall c: (nat, nat) :: c in live' && c.0 == base ==> c.1 < n
    ensures PagesOk(n, pagesize, pages[base := p], live')
  {
    forall b | b in pages && b != base ensures PageOk(n, b, pages[b], live') {
      assert PageOk(n, b, pages[b], live);
    }
  }

  lemma {:induction false} FirstPage(pages: map<nat, Page>, partial: seq<nat>, full: seq<nat>)
    requires ListsOk(pages, partial, full) && partial != []
    ensures partial[0] in pages && pages[partial[0]].free != []
  {
    assert partial[0] in partial;
  }

  /** Moving a page between the lists as its free cells come and go. */
  lemma {:induction false} ListsTake(pages: map<nat, Page>, partial: seq<nat>, full: seq<nat>, base: nat, p: Page)
    requires ListsOk(pages, partial, full) && base in pages && pages[base].free != []
    ensures p.free != [] ==> ListsOk(pages[base := p], partial, full)
    ensures p.free == [] ==> ListsOk(pages[base := p], Without(partial, base), full + [base])
  {
    WithoutDistinct(partial, base);
  }

  lemma {:induction false} ListsNew(pages: map<nat, Page>, full: seq<nat>, base: nat, p: Page)
    requires ListsOk(pages, [], full) && base !in pages
    ensures p.free != [] ==> ListsOk(pages[base := p], [base], full)
    ensures p.free == [] ==> ListsOk(pages[base := p], [], full + [base])
  {
  }

  lemma {:induction false} ListsGive(pages: map<nat, Page>, partial: seq<nat>, full: seq<nat>, base: nat, p: Page)
    requires ListsOk(pages, partial, full) && base in pages && p.free != []
    ensures pages[base].free == [] ==> ListsOk(pages[base := p], partial + [base], Without(full, base))
    ensures pages[base].free != [] ==> ListsOk(pages[base := p], partial, full)
  {
    WithoutDistinct(full, base);
  }

  lemma {:induction false} ListsDrop(pages: map<nat, Page>, partial: seq<nat>, full: seq<nat>, base: nat)
    requires ListsOk(pages, partial, full) && base in pages
    ensures pages[base].free == [] ==> ListsOk(pages - {base}, partial, Without(full, base))
    ensures pages[base].free != [] ==> ListsOk(pages - {base}, Without(partial, base), full)
  {
    WithoutDistinct(full, base);
    WithoutDistinct(partial, base);
  }

  // ---------------------------------------------------------------- taking a cell back

  lemma {:induction false} GivePage(n: nat, base: nat, p: Page, live: set<(nat, nat)>, i: nat)
    requires PageOk(n, base, p, live) && i < n && (base, i) in live && p.used > 1
    ensures PageOk(n, base, Page([i] + p.free, p.used - 1), live - {(base, i)})
  {
    var free := [i] + p.free;
    forall a, b | 0 <= a < b < |free| ensures free[a] != free[b] {
      assert free[b] == p.free[b - 1] && free[b] in p.free;
    }
  }

  /** If one cell of a page is in use, every other cell is free. */
  lemma {:induction false} LastCell(n: nat, base: nat, p: Page, live: set<(nat, nat)>, i: nat, j: nat)
    requires PageOk(n, base, p, live) && p.used == 1 && i < n && (base, i) in live && j < n && (base, j) in live
    ensures i == j
  {
    if i != j {
      DistinctSize(p.free);
      var s := Members(p.free) + {i} + {j};
      assert |s| == |Members(p.free)| + 2;
      BelowSize(s, n);
    }
  }

  lemma {:induction false} DropPage(
      n: nat, pagesize: nat, pages: map<nat, Page>, live: set<(nat, nat)>, base: nat, i: nat)
    requires pagesize > 0 && PagesOk(n, pagesize, pages, live) && base in pages && (base, i) in live
    requires pages[base].used == 1
    ensures PagesOk(n, pagesize, pages - {base}, live - {(base, i)})
  {
    var rest, live' := pages - {base}, live - {(base, i)};
    forall b | b in rest ensures PageOk(n, b, rest[b], live') {
      assert PageOk(n, b, pages[b], live);
    }
    forall c | c in live' ensures c.0 in rest && c.1 < n {
      if c.0 == base {
        assert c == (base, c.1);
        LastCell(n, base, pages[base], live, i, c.1);
      }
    }
  }

  // ---------------------------------------------------------------- the allocator

  /** `partial_slabs`, `full_slabs` and the pages themselves. */
  class Slabs {
    const geo: Geometry
    var pages: map<nat, Page>
    var partial: seq<nat>
    var full: seq<nat>
    /** The cells that are handed out. */
    ghost var live: set<(nat, nat)>

    ghost predicate Valid()
      reads this
    {
      && geo.Valid() && ListsOk(pages, partial, full) && PagesOk(geo.Count(), geo.pagesize, pages, live)
    }

    constructor (geo: Geometry)
      requires geo.Valid()
      ensures Valid() && live == {} && this.geo == geo && pages == map[] && partial == [] && full == []
    {
      this.geo := geo;
      pages := map[];
      partial, full := [], [];
      live := {};
    }

    /** `alloc_node`, with `alloc_slab` where no slab has a free cell. `page` is what mmap gives: a page that is
        not in use. */
    method AllocNode(page: Option<nat>) returns (r: Option<(nat, nat)>)
      requires Valid()
      requires page.Some? ==> page.value % geo.pagesize == 0 && page.value !in pages
      modifies this
      ensures Valid()
      ensures r.None? <==> old(partial) == [] && page.None?
      ensures r.None? ==> pages == old(pages) && live == old(live)
      ensures pages.Keys == old(pages).Keys + (if old(partial) == [] && page.Some? then {page.value} else {})
      ensures r.Some? ==> r.value !in old(live) && live == old(live) + {r.value}
    {
      if partial == [] {
        if page.None? { return None; }
        r := TakeNew(page.value);
      } else {
        r := TakeFirst();
      }
    }

    method TakeFirst() returns (r: Option<(nat, nat)>)
      requires Valid() && partial != []
      modifies this
      ensures Valid() && r.Some? && r.value !in old(live) && live == old(live) + {r.value}
      ensures pages.Keys == old(pages).Keys
    {
      hide ListsOk, PageOk;
      FirstPage(pages, partial, full);
      var b := partial[0];
      var p := pages[b];
      var cell, taken := p.free[0], Page(p.free[1..], p.used + 1);
      TakePage(geo.Count(), b, p, live);
      ListsTake(pages, partial, full, b, taken);
      OnePage(geo.Count(), geo.pagesize, pages, live, b, taken, live + {(b, cell)});
      hide PagesOk;
      pages := pages[b := taken];
      live := live + {(b, cell)};
      if taken.free == [] {
        partial := Without(partial, b);
        full := full + [b];
      }
      r := Some((b, cell));
    }

    method TakeNew(b: nat) returns (r: Option<(nat, nat)>)
      requires Valid() && partial == [] && b % geo.pagesize == 0 && b !in pages
      modifies this
      ensures Valid() && r.Some? && r.value !in old(live) && live == old(live) + {r.value}
      ensures pages.Keys == old(pages).Keys + {b}
    {
      hide ListsOk, PageOk;
      geo.Fits();
      assert forall i :: (b, i) in live ==> (b, i).0 in pages;
      var fresh' := Page(UpTo(geo.Count())[1..], 1);
      NewPage(geo.Count(), b, live);
      ListsNew(pages, full, b, fresh');
      OnePage(geo.Count(), geo.pagesize, pages, live, b, fresh', live + {(b, 0)});
      hide PagesOk;
      pages := pages[b := fresh'];
      live := live + {(b, 0)};
      if fresh'.free == [] {
        full := full + [b];
      } else {
        partial := [b];
      }
      r := Some((b, 0));
    }

    /** `free_node_mem`, with `free_slab` for the last cell of a page. */
    method FreeNode(cell: (nat, nat))
      requires Valid() && cell in live
      modifies this
      ensures Valid() && live == old(live) - {cell}
    {
      hide ListsOk, PageOk;
      var b, i := cell.0, cell.1;
      var p := pages[b];
      UsedPositive(geo.Count(), b, p, live);
      if p.used - 1 > 0 {
        var given := Page([i] + p.free, p.used - 1);
        GivePage(geo.Count(), b, p, live, i);
        ListsGive(pages, partial, full, b, given);
        OnePage(geo.Count(), geo.pagesize, pages, live, b, given, live - {cell});
        hide PagesOk;
        if p.free == [] {
          full := Without(full, b);
          partial := partial + [b];
        }
        pages := pages[b := given];
      } else {
        DropPage(geo.Count(), geo.pagesize, pages, live, b, i);
        ListsDrop(pages, partial, full, b);
        hide PagesOk;
        if p.free == [] {
          full := Without(full, b);
        } else {
          partial := Without(partial, b);
        }
        pages := pages - {b};
      }
      live := live - {cell};
    }
  }

  lemma {:induction false} UsedPositive(n: nat, base: nat, p: Page, live: set<(nat, nat)>)
    requires PageOk(n, base, p, live)
    ensures p.used > 0
  {
  }

  /** Both lists are empty exactly when no cell is handed out, as `fuse_destroy` asserts. */
  lemma {:induction false} EmptyWhenNothingLive(a: Slabs)
    requires a.Valid()
    ensures a.partial == [] && a.full == [] <==> a.live == {}
  {
    if a.partial != [] {
      assert a.partial[0] in a.partial;
      SomeCellUsed(a.geo.Count(), a.partial[0], a.pages[a.partial[0]], a.live);
    } else if a.full != [] {
      assert a.full[0] in a.full;
      SomeCellUsed(a.geo.Count(), a.full[0], a.pages[a.full[0]], a.live);
    }
  }

  lemma {:induction false} SomeCellUsed(n: nat, base: nat, p: Page, live: set<(nat, nat)>)
    requires PageOk(n, base, p, live)
    ensures exists i :: 0 <= i < n && (base, i) in live
  {
    DistinctSize(p.free);
    if forall i :: 0 <= i < n ==> i in p.free {
      AllFrom(Members(p.free), 0, n);
    }
    var i :| 0 <= i < n && i !in p.free;
    assert (base, i) in live;
  }
}
