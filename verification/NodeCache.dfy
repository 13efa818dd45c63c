/** `struct fuse`: the node table with its two hash tables, as the code updates it.

    Each method is proved against the function that specifies it in `NodeTree`, `TreeOps` or
    `TreeLocks`, and keeps both hash tables in agreement with the live nodes. */
module NodeCache {
  import opened Prelude
  import opened LinearHash
  import opened Slab
  import opened NodeTree
  import opened TreeOps
  import opened TreeLocks
  import opened LockTree
  import opened LockSteps

  const UNKNOWN_INO: nat := 0xffff_ffff
  const ID_LIMIT: nat := 0x1_0000_0000
  const HASH64: nat := 0x1_0000_0000_0000_0000

  /** The full-width hash of `id_hash`: a 32-bit product. */
  function IdHash(id: Id): nat {
    ((id % ID_LIMIT) * 2654435761) % ID_LIMIT
  }

  /** The loop of `name_hash`, in 64-bit arithmetic. */
  function NameHashFrom(hash: nat, name: Name): nat
    decreases |name|
  {
    if name == [] then hash
    else NameHashFrom((hash * 31 + (name[0] as int) % 256) % HASH64, name[1..])
  }

  function NameHash(l: Link): nat {
    NameHashFrom(l.parent % HASH64, l.name)
  }

  class Fuse {
    var nodes: Nodes
    const idTable: NodeTable<Id, Id>
    const nameTable: NodeTable<Link, Id>
    const slabs: Slabs
    /** Where each node is in memory. */
    var cells: map<Id, Cell>
    var ctr: nat
    var generation: nat

    /** The tables agree with the live nodes. `dying` nodes have left the name table and are still in
        the id table; `depth` of them still count in the name table's `use`. */
    ghost predicate Coupled(dying: set<Id>, depth: nat)
      reads this`nodes, idTable, nameTable
    {
      && idTable as object != nameTable
      && idTable.Valid() && nameTable.ValidWith(depth)
      && Agree(nodes, dying, idTable.contents, nameTable.contents)
    }

    /** The cells handed out are those of the nodes in the id table. */
    ghost predicate Stored()
      reads this`cells, slabs, idTable
    {
      && slabs as object != idTable && slabs as object != nameTable
      && slabs.Valid() && Owned(idTable.contents.Keys, cells, slabs.live)
    }

    ghost predicate Valid()
      reads this`nodes, this`cells, this`ctr, this`generation, idTable, nameTable, slabs
    {
      Coupled({}, 0) && Stored() && Tree(nodes) && ctr < ID_LIMIT && generation < ID_LIMIT
    }

    constructor (ids: NodeTable<Id, Id>, names: NodeTable<Link, Id>, memory: Slabs, cell: Cell)
      requires ids as object != names && ids.Valid() && names.Valid()
      requires memory as object != ids && memory as object != names && memory.Valid() && memory.live == {cell}
      requires ids.contents == map[ROOT := ROOT] && names.contents == map[]
      ensures Valid() && idTable == ids && nameTable == names && slabs == memory
      ensures nodes == map[ROOT := Node(None, 1, 1, 0, 0)] && ctr == 0 && generation == 0
    {
      hide NodeTable.Consistent, Tree, Agree, Slabs.Valid;
      idTable := ids;
      nameTable := names;
      slabs := memory;
      cells := map[ROOT := cell];
      nodes := map[ROOT := Node(None, 1, 1, 0, 0)];
      ctr := 0;
      generation := 0;
      RootTree();
    }

    /** `_fuse_new_31`: the two tables and the root, which is looked up once and has no name, if there is memory
        for each of the three; `page` is what mmap gives. */
    static method New(geo: Geometry, namesOk: bool, idsOk: bool, page: Option<nat>) returns (r: Option<Fuse>)
      requires geo.Valid() && (page.Some? ==> page.value % geo.pagesize == 0)
      ensures r.Some? <==> namesOk && idsOk && page.Some?
      ensures r.Some? ==> fresh(r.value) && r.value.Valid() && r.value.nodes == map[ROOT := Node(None, 1, 1, 0, 0)]
      ensures r.Some? ==> r.value.ctr == 0 && r.value.generation == 0
    {
      hide NodeTable.Consistent, Fuse.Coupled, Slabs.Valid;
      if !namesOk || !idsOk { return None; }
      var slabs, cell := RootCell(geo, page);
      if cell.None? { return None; }
      var names := new NodeTable<Link, Id>(NameHash);
      var ids := RootTable();
      var f := new Fuse(ids, names, slabs, cell.value);
      return Some(f);
    }

    static method RootCell(geo: Geometry, page: Option<nat>) returns (slabs: Slabs, cell: Option<Cell>)
      requires geo.Valid() && (page.Some? ==> page.value % geo.pagesize == 0)
      ensures fresh(slabs) && slabs.Valid() && (cell.Some? <==> page.Some?)
      ensures cell.Some? ==> slabs.live == {cell.value}
    {
      hide Slabs.Valid;
      slabs := new Slabs(geo);
      cell := slabs.AllocNode(page);
    }

    static method RootTable() returns (ids: NodeTable<Id, Id>)
      ensures fresh(ids) && ids.Valid() && ids.contents == map[ROOT := ROOT]
    {
      hide NodeTable.Consistent;
      ids := new NodeTable<Id, Id>(IdHash);
      var ok: bool := *;
      ids.Insert(ROOT, ROOT, ok, 0);
    }

    /** `lookup_node`. */
    method LookupNode(l: Link) returns (r: Option<Id>)
      requires Coupled({}, 0) && UniqueNames(nodes)
      ensures r == NodeAt(nodes, l)
    {
      r := nameTable.Lookup(l);
      AgreesWithLookup(nodes, {}, idTable.contents, nameTable.contents, l);
    }

    /** `get_node_nocheck`. */
    method GetNode(id: Id) returns (r: bool)
      requires Coupled({}, 0)
      ensures r <==> id in nodes
    {
      var found := idTable.Lookup(id);
      r := found.Some?;
    }

    // -------------------------------------------------------------- deletion

    /** `unref_node`. */
    method UnrefNode(id: Id, ghost dots: Dots, ghost dying: set<Id>, ghost depth: nat)
      requires Coupled(dying, depth) && Stored() && Tree(nodes) && RefOwed(nodes, dots, id) && id in nodes
      requires DeletesUnlocked(nodes, id)
      modifies this`nodes, this`cells, idTable, nameTable, slabs
      ensures Stored()
      ensures Coupled(dying, depth) && nodes == Unref(old(nodes), id)
      decreases |nodes|, 2
    {
      hide NodeTable.Consistent, Agree, Slabs.Valid, Owned, Tree, RefOwed, Unref, DeletesUnlocked, LowerRef;
      OwedPositive(nodes, dots, id);
      var node := nodes[id];
      assert node.refctr > 0;
      if node.refctr > 1 {
        UnrefLowers(nodes, id);
        nodes := LowerRef(nodes, id);
        AgreeFrame(old(nodes), nodes, dying, idTable.contents, nameTable.contents);
      } else {
        DeleteNode(id, dots, dying, depth);
      }
    }

    /** `delete_node`. The node's record is dropped before its id is unhashed rather than after, which
        nothing in between can see. */
    method DeleteNode(id: Id, ghost dots: Dots, ghost dying: set<Id>, ghost depth: nat)
      requires Coupled(dying, depth) && Stored() && Tree(nodes) && RefOwed(nodes, dots, id)
      requires id in nodes && nodes[id].refctr <= 1
      requires DeletesUnlocked(nodes, id)
      modifies this`nodes, this`cells, idTable, nameTable, slabs
      ensures Stored()
      ensures Coupled(dying, depth) && nodes == Unref(old(nodes), id)
      decreases |nodes|, 1
    {
      hide NodeTable.Consistent, Agree, Slabs.Valid, Owned, Tree, RefOwed, Unref, DeletesUnlocked;
      DeleteFacts(nodes, dots, id);
      assert nodes[id].treelock == 0;
      UnrefShrinks(nodes, id);
      UnhashDying(id, dots, dying, depth);
      UnhashId(id, dying, depth);
      FreeCell(id);
    }

    /** `unhash_id`. */
    method UnhashId(id: Id, ghost dying: set<Id>, ghost depth: nat)
      requires Coupled(dying + {id}, depth) && id !in nodes && id !in dying
      modifies idTable
      ensures Coupled(dying, depth) && id !in idTable.contents
      ensures old(idTable.contents.Keys) == idTable.contents.Keys + {id}
    {
      hide NodeTable.Consistent, Agree;
      AgreeIdCut(nodes, dying, id, idTable.contents, nameTable.contents);
      var f := idTable.Unlink(id, id, 0);
      var ok: bool := *;
      idTable.Account(ok, 0);
    }

    /** `free_node`, once the node is in no table. */
    method FreeCell(id: Id)
      requires slabs as object != idTable && slabs as object != nameTable && slabs.Valid()
      requires id !in idTable.contents && Owned(idTable.contents.Keys + {id}, cells, slabs.live)
      modifies this`cells, slabs
      ensures Stored()
    {
      hide Slabs.Valid, Owned;
      Release(id, idTable.contents.Keys);
    }

    /** `unhash_name` of a node that is being deleted. */
    method UnhashDying(id: Id, ghost dots: Dots, ghost dying: set<Id>, ghost depth: nat)
      requires Coupled(dying, depth) && Stored() && Tree(nodes) && RefOwed(nodes, dots, id)
      requires id in nodes && nodes[id].refctr <= 1
      requires DeletesUnlocked(nodes, id)
      modifies this`nodes, this`cells, idTable, nameTable, slabs
      ensures Stored()
      ensures nodes == Unref(old(nodes), id) && id !in nodes && id !in dying
      ensures Coupled(dying + {id}, depth)
      decreases |nodes|, 0
    {
      hide NodeTable.Consistent, Agree, Slabs.Valid, Owned, Tree, RefOwed, Unref, DeletesUnlocked;
      DeleteFacts(nodes, dots, id);
      UnrefShrinks(nodes, id);
      AgreeCut(nodes, dying, idTable.contents, nameTable.contents, id);
      var node := nodes[id];
      nodes := nodes - {id};
      if node.link.Some? {
        var l := node.link.value;
        var found := nameTable.Unlink(l, id, depth);
        UnrefNode(l.parent, dots, dying + {id}, depth + 1);
        var ok: bool := *;
        nameTable.Account(ok, depth);
      }
    }

    /** `unhash_name` of a node that stays. */
    method UnhashName(id: Id, ghost dots: Dots)
      requires Coupled({}, 0) && Stored() && Tree(nodes) && RefOk(nodes, dots) && id in nodes
      requires DetachesUnlocked(nodes, id)
      modifies this`nodes, this`cells, idTable, nameTable, slabs
      ensures Stored()
      ensures Coupled({}, 0) && Tree(nodes) && RefOk(nodes, dots)
      ensures nodes == Detach(old(nodes), id)
    {
      hide NodeTable.Consistent, Agree, Slabs.Valid, Owned, Tree, RefOwed, RefOk, Unref, DetachesUnlocked;
      var node := nodes[id];
      if node.link.None? { return; }
      var l := node.link.value;
      DetachFacts(nodes, dots, id);
      AgreeUnlinked(nodes, idTable.contents, nameTable.contents, id);
      var found := nameTable.Unlink(l, id, 0);
      nodes := nodes[id := node.(link := None)];
      assert nodes == Unlinked(old(nodes), id);
      UnrefNode(l.parent, dots, {}, 1);
      var ok: bool := *;
      nameTable.Account(ok, 0);
    }

    /** `hash_name`; a name too long for the node itself is copied, which may fail. */
    method HashName(id: Id, l: Link, copied: bool) returns (done: bool)
      requires Coupled({}, 0) && id in nodes && nodes[id].link.None? && l.parent in nodes && NodeAt(nodes, l).None?
      modifies this`nodes, nameTable
      ensures Coupled({}, 0)
      ensures done == (|l.name| < 32 || copied)
      ensures nodes == if done then Attach(old(nodes), id, l) else old(nodes)
    {
      hide NodeTable.Consistent, Agree, Bound, NodeAt;
      done := |l.name| < 32 || copied;
      if !done { return; }
      AgreeAttach(nodes, idTable.contents, nameTable.contents, id, l);
      ghost var after := Attach(nodes, id, l);
      nodes := nodes[id := nodes[id].(link := Some(l))];
      nodes := nodes[l.parent := nodes[l.parent].(refctr := nodes[l.parent].refctr + 1)];
      assert nodes == after;
      var ok: bool := *;
      nameTable.Insert(l, id, ok, 0);
    }

    /** `free_node` of any node that has a cell. */
    method Release(id: Id, ghost others: set<Id>)
      requires slabs.Valid() && id !in others && Owned(others + {id}, cells, slabs.live)
      modifies this`cells, slabs
      ensures slabs.Valid() && Owned(others, cells, slabs.live)
    {
      hide Slabs.Valid, Owned;
      OwnedCut(others, cells, slabs.live, id);
      slabs.FreeNode(cells[id]);
      cells := cells - {id};
    }

    /** The freeing loop of `fuse_destroy` and its asserts: every node is in one chain, so every cell is given back
        once, and no slab is left on either list. */
    method Destroy()
      requires Valid()
      modifies this`cells, slabs, idTable`use
      ensures slabs.partial == [] && slabs.full == [] && idTable.use == 0
    {
      hide Slabs.Valid, Owned, Tree, Agree, Placed;
      FreeAll(Addressing(idTable.hash, idTable.size, idTable.split));
      NobodyOwns(cells, slabs.live);
      EmptyWhenNothingLive(slabs);
      assert slabs.partial == [];
      assert slabs.full == [];
    }

    /** The outer loop. */
    method FreeAll(ghost at: Id -> nat)
      requires Stored() && idTable.use == |idTable.contents| && |idTable.buckets| >= idTable.size
      requires Placed(at, idTable.buckets, idTable.size, idTable.contents)
      modifies this`cells, slabs, idTable`use
      ensures slabs.Valid() && Owned({}, cells, slabs.live) && idTable.use == 0
    {
      hide Slabs.Valid, Owned, Placed, From, Keys, NoDup;
      ghost var table := idTable.contents;
      ghost var rest := From(table, at, 0);
      FromAll(table, at);
      FromNone(at, idTable.buckets, idTable.size, table);
      var i := 0;
      while i < idTable.size
        invariant i <= idTable.size && rest == From(table, at, i)
        invariant slabs.Valid() && Owned(rest, cells, slabs.live) && idTable.use == |rest|
      {
        ChainFrom(at, idTable.buckets, idTable.size, table, i);
        rest := FreeChain(idTable.buckets[i], rest);
        i := i + 1;
      }
    }

    /** The inner loop. */
    method FreeChain(chain: seq<Entry<Id, Id>>, ghost all: set<Id>) returns (ghost rest: set<Id>)
      requires slabs as object != idTable && slabs.Valid() && Owned(all, cells, slabs.live) && idTable.use == |all|
      requires NoDup(chain) && Keys(chain) <= all
      modifies this`cells, slabs, idTable`use
      ensures slabs.Valid() && rest == all - Keys(chain) && Owned(rest, cells, slabs.live) && idTable.use == |rest|
    {
      hide Slabs.Valid, Owned, NoDup, Keys;
      rest := all;
      var pos := 0;
      NoKeys(chain);
      while pos < |chain|
        invariant 0 <= pos <= |chain| && rest == all - Keys(chain[..pos])
        invariant slabs.Valid() && Owned(rest, cells, slabs.live) && idTable.use == |rest|
      {
        NextKey(chain, pos);
        rest := FreeNext(chain[pos].key, all, Keys(chain[..pos]), rest);
        pos := pos + 1;
      }
      assert chain[..|chain|] == chain;
    }

    /** One turn of it. */
    method FreeNext(id: Id, ghost all: set<Id>, ghost gone: set<Id>, ghost rest: set<Id>) returns (ghost fewer: set<Id>)
      requires slabs as object != idTable && slabs.Valid() && Owned(rest, cells, slabs.live) && idTable.use == |rest|
      requires rest == all - gone && id in all && id !in gone
      modifies this`cells, slabs, idTable`use
      ensures slabs.Valid() && fewer == all - (gone + {id}) && Owned(fewer, cells, slabs.live)
      ensures idTable.use == |fewer|
    {
      hide Slabs.Valid, Owned;
      fewer := TakeOut(all, gone, rest, id);
      Release(id, fewer);
      idTable.use := idTable.use - 1;
    }

    // -------------------------------------------------------------- unlink and rename

    /** `remove_node`, in a directory that has been looked up. */
    method RemoveNode(l: Link, ghost dots: Dots)
      requires Valid() && RefOk(nodes, dots) && l.parent in nodes && nodes[l.parent].nlookup > 0
      modifies this`nodes, this`cells, idTable, nameTable, slabs
      ensures Valid() && RefOk(nodes, dots)
      ensures nodes == DetachAt(old(nodes), NodeAt(old(nodes), l))
    {
      hide NodeTable.Consistent, Agree, Slabs.Valid, Owned, Tree, RefOk, Detach, NodeAt, Bound, DetachesUnlocked;
      TreeNames(nodes);
      var node := LookupNode(l);
      if node.Some? {
        NamedFacts(nodes, dots, l);
        UnhashName(node.value, dots);
      }
    }

    /** `rename_node`, between directories that have been looked up. */
    method RenameNode(from: Link, to: Link, hiding: bool, copied: bool, ghost dots: Dots) returns (err: int)
      requires Valid() && RefOk(nodes, dots)
      requires from.parent in nodes && nodes[from.parent].nlookup > 0
      requires to.parent in nodes && nodes[to.parent].nlookup > 0
      modifies this`nodes, this`cells, idTable, nameTable, slabs
      ensures Coupled({}, 0) && Stored()
      ensures Valid() <==> !Circular(old(nodes), from, to, hiding, |to.name| < 32 || copied)
      ensures Valid() ==> RefOk(nodes, dots)
      ensures nodes == RenameNodes(old(nodes), from, to, hiding, |to.name| < 32 || copied)
      ensures err == if NodeAt(old(nodes), from).None? then 0
                     else if NodeAt(old(nodes), to).Some? && hiding then -EBUSY
                     else if |to.name| < 32 || copied then 0 else -ENOMEM
    {
      hide Coupled, Stored, Tree, RefOk, Detach, Attach, NodeAt, Bound, DetachesUnlocked, Circular;
      TreeNames(nodes);
      RenameTree(nodes, dots, from, to, hiding, |to.name| < 32 || copied);
      var node := LookupNode(from);
      var newnode := LookupNode(to);
      if node.None? { return 0; }
      NamedFacts(nodes, dots, from);
      if newnode.Some? {
        if hiding { return -EBUSY; }
        NamedFacts(nodes, dots, to);
        UnhashName(newnode.value, dots);
      }
      ghost var n1 := nodes;
      RenameCleared(old(nodes), n1, dots, from, to);
      UnhashName(node.value, dots);
      RenameFreed(n1, dots, node.value, to);
      var done := HashName(node.value, to, copied);
      err := if done then 0 else -ENOMEM;
    }

    // -------------------------------------------------------------- new ids

    /** `next_id`: count up, around the end, past 0, the unknown inode and every live id. The pair
        (generation, id) grows until the generation itself wraps. */
    method NextId() returns (id: Id)
      requires Coupled({}, 0) && ctr < ID_LIMIT && generation < ID_LIMIT
      requires |nodes| < UNKNOWN_INO - 1
      modifies this`ctr, this`generation
      ensures id == ctr && 0 < id < UNKNOWN_INO && id !in nodes
      ensures generation < ID_LIMIT
      ensures Later(old(generation), old(ctr), generation, ctr)
      ensures forall q :: old(ctr) < q < Position(old(ctr), ctr) ==> Taken(nodes, q)
    {
      hide Coupled, Later;
      ghost var free := FreeId(nodes);
      // Positions count on past the wrap: position p stands for the id p % ID_LIMIT.
      ghost var last := if free > ctr then free else free + ID_LIMIT;
      ghost var p := ctr + 1;
      Advance();
      var live := GetNode(ctr);
      while ctr == 0 || ctr == UNKNOWN_INO || live
        invariant old(ctr) < p <= last && ctr < ID_LIMIT
        invariant ctr == if p < ID_LIMIT then p else p - ID_LIMIT
        invariant generation == if p < ID_LIMIT then old(generation) else (old(generation) + 1) % ID_LIMIT
        invariant live <==> ctr in nodes
        invariant forall q :: old(ctr) < q < p ==> Taken(nodes, q)
        decreases last - p
      {
        Advance();
        p := p + 1;
        live := GetNode(ctr);
      }
      id := ctr;
      LaterAt(old(generation), old(ctr), p);
    }

    /** One turn of the counter. */
    method Advance()
      requires ctr < ID_LIMIT && generation < ID_LIMIT
      modifies this`ctr, this`generation
      ensures ctr == if old(ctr) + 1 == ID_LIMIT then 0 else old(ctr) + 1
      ensures generation == if ctr == 0 then (old(generation) + 1) % ID_LIMIT else old(generation)
    {
      ctr := (ctr + 1) % ID_LIMIT;
      if ctr == 0 {
        generation := (generation + 1) % ID_LIMIT;
      }
    }

    // -------------------------------------------------------------- lookups and forgets

    /** `find_node` with a name. `page` is what mmap gives if no slab has a free cell, and `copied` says whether a
        long name can be copied. The two tables are filled in the other order, which nothing in between can
        see. */
    method FindNode(l: Link, page: Option<nat>, copied: bool, ghost dots: Dots) returns (r: Option<Id>)
      requires Valid() && RefOk(nodes, dots) && l.parent in nodes && |nodes| < UNKNOWN_INO - 1
      requires page.Some? ==> page.value % slabs.geo.pagesize == 0 && page.value !in slabs.pages
      modifies this, idTable, nameTable, slabs
      ensures Valid() && RefOk(nodes, dots)
      ensures Found(old(nodes), nodes, l, generation, r)
      ensures r.Some? ==> Counts(old(nodes), nodes, l, generation, r.value)
      ensures r.None? <==> !Bindable(old(nodes), l, old(slabs.partial) != [] || page.Some?, copied)
      ensures Drawn(old(nodes), l, old(slabs.partial) != [] || page.Some?, r,
                    old(generation), old(ctr), generation, ctr)
    {
      hide Coupled, Owned, Slabs.Valid, Tree, RefOk, Create, IncLookup, NodeAt, Counts, LookedUp, Taken;
      TreeNames(nodes);
      r := LookupNode(l);
      if r.Some? {
        AtIsLive(nodes, l);
        IncLookupCorrect(nodes, dots, r.value);
        IncNodeLookup(r.value);
      } else {
        r := NewNode(l, page, copied, dots);
      }
      FoundCounts(old(nodes), nodes, dots, l, generation, r);
    }

    /** The part of `find_node` for a name that is not bound. */
    method NewNode(l: Link, page: Option<nat>, copied: bool, ghost dots: Dots) returns (r: Option<Id>)
      requires Valid() && RefOk(nodes, dots) && l.parent in nodes && |nodes| < UNKNOWN_INO - 1
      requires NodeAt(nodes, l).None?
      requires page.Some? ==> page.value % slabs.geo.pagesize == 0 && page.value !in slabs.pages
      modifies this, idTable, nameTable, slabs
      ensures Valid() && RefOk(nodes, dots)
      ensures Found(old(nodes), nodes, l, generation, r)
      ensures r.None? <==> !Bindable(old(nodes), l, old(slabs.partial) != [] || page.Some?, copied)
      ensures Drawn(old(nodes), l, old(slabs.partial) != [] || page.Some?, r,
                    old(generation), old(ctr), generation, ctr)
    {
      hide Coupled, Owned, Slabs.Valid, Tree, RefOk, Create, IncLookup, NodeAt, Taken;
      var cell := slabs.AllocNode(page);
      if cell.None? { return None; }
      var id := NextId();
      if |l.name| < 32 || copied {
        AddNode(id, l, copied, cell.value, dots);
        r := Some(id);
      } else {
        slabs.FreeNode(cell.value);
        assert slabs.live == old(slabs.live);
        r := None;
      }
    }

    /** The part of `find_node` that enters a new node. */
    method AddNode(id: Id, l: Link, copied: bool, cell: Cell, ghost dots: Dots)
      requires Coupled({}, 0) && Tree(nodes) && RefOk(nodes, dots)
      requires slabs as object != idTable && slabs as object != nameTable && slabs.Valid()
      requires cell in slabs.live && Owned(idTable.contents.Keys, cells, slabs.live - {cell})
      requires id !in nodes && l.parent in nodes && NodeAt(nodes, l).None? && (|l.name| < 32 || copied)
      modifies this`nodes, this`cells, idTable, nameTable
      ensures Coupled({}, 0) && Stored() && Tree(nodes) && RefOk(nodes, dots)
      ensures nodes == Create(old(nodes), id, l, generation)
    {
      hide NodeTable.Consistent, Agree, Slabs.Valid, Owned, Tree, RefOk, Create, Attach, IncLookup, NodeAt;
      CreateCorrect(nodes, dots, id, l, generation);
      CreatedInSteps(nodes, id, l, generation);
      EnterId(id, l, cell);
      var done := HashName(id, l, copied);
      assert id in nodes by { AttachLive(old(nodes)[id := Node(None, 0, 0, 0, generation)], id, l); }
      IncNodeLookup(id);
    }

    /** The bare record of a new node, and `hash_id`. */
    method EnterId(id: Id, ghost l: Link, cell: Cell)
      requires Coupled({}, 0) && id !in nodes && l.parent in nodes && NodeAt(nodes, l).None?
      requires slabs as object != idTable && slabs as object != nameTable && slabs.Valid()
      requires cell in slabs.live && Owned(idTable.contents.Keys, cells, slabs.live - {cell})
      modifies this`nodes, this`cells, idTable
      ensures Coupled({}, 0) && Stored() && nodes == old(nodes)[id := Node(None, 0, 0, 0, generation)]
      ensures NodeAt(nodes, l).None?
    {
      hide NodeTable.Consistent, Agree, Slabs.Valid, Owned, NodeAt;
      AgreeFresh(nodes, idTable.contents, nameTable.contents, id, l, generation);
      OwnedAdd(idTable.contents.Keys, cells, slabs.live - {cell}, id, cell);
      KeysAdd(idTable.contents, id);
      assert slabs.live - {cell} + {cell} == slabs.live;
      nodes := nodes[id := Node(None, 0, 0, 0, generation)];
      cells := cells[id := cell];
      var ok: bool := *;
      idTable.Insert(id, id, ok, 0);
    }

    /** `inc_nlookup`. */
    method IncNodeLookup(id: Id)
      requires Coupled({}, 0) && id in nodes
      modifies this`nodes
      ensures Coupled({}, 0) && nodes == IncLookup(old(nodes), id)
      ensures LookedUp(old(nodes), nodes, id)
    {
      hide NodeTable.Consistent, Agree;
      var node := nodes[id];
      if node.nlookup == 0 {
        node := node.(refctr := node.refctr + 1);
      }
      node := node.(nlookup := node.nlookup + 1);
      nodes := nodes[id := node];
      AgreeFrame(old(nodes), nodes, {}, idTable.contents, nameTable.contents);
    }

    /** `forget_node`, once its wait is over: the last forget of a locked node does not get here. The
        root is never forgotten. */
    method ForgetNode(id: Id, n: nat, ghost dots: Dots)
      requires Valid() && RefOk(nodes, dots) && id in nodes
      requires id != ROOT ==> 1 <= n <= nodes[id].nlookup && DeletesUnlocked(LowerLookup(nodes, id, n), id)
      modifies this`nodes, this`cells, idTable, nameTable, slabs
      ensures Valid() && RefOk(nodes, dots)
      ensures nodes == if id == ROOT then old(nodes) else Forget(old(nodes), id, n)
      ensures forall y: Id :: Lookups(nodes, y) == Lookups(old(nodes), y) - (if y == id && id != ROOT then n else 0)
    {
      hide NodeTable.Consistent, Agree, Slabs.Valid, Owned, Tree, RefOk, RefOwed, Unref, DeletesUnlocked, Forget;
      hide Lookups;
      if id != ROOT {
        ForgetFacts(nodes, dots, id, n);
        DropLookups(id, n, dots);
      }
    }

    method DropLookups(id: Id, n: nat, ghost dots: Dots)
      requires Coupled({}, 0) && Stored() && id in nodes && n <= nodes[id].nlookup
      requires var m := LowerLookup(nodes, id, n);
        Tree(m) && DeletesUnlocked(m, id) && (n == nodes[id].nlookup ==> RefOwed(m, dots, id))
      modifies this`nodes, this`cells, idTable, nameTable, slabs
      ensures Stored()
      ensures Coupled({}, 0) && nodes == Forget(old(nodes), id, n)
    {
      hide NodeTable.Consistent, Agree, Slabs.Valid, Owned, Tree, RefOwed, Unref, DeletesUnlocked;
      var node := nodes[id];
      assert node.nlookup >= n;
      ghost var m := LowerLookup(nodes, id, n);
      AgreeFrame(nodes, m, {}, idTable.contents, nameTable.contents);
      nodes := LowerLookup(nodes, id, n);
      if node.nlookup == n {
        UnrefNode(id, dots, {}, 0);
      }
    }

    // -------------------------------------------------------------- path locks

    /** `unlock_path`: release the written node, then the chain from `base` up to `end` or the root.
        The three asserts of the loop and the one before it are what is required. */
    method UnlockPath(base: Id, wnode: Option<Id>, end: Option<Id>, ghost c: seq<Id>, ghost stop: nat)
      requires Tree(nodes) && TopChain(nodes, base, c) && stop < |c|
      requires end.Some? ==> c[stop] == end.value
      requires end.None? ==> c[stop] == ROOT
      requires forall i :: 0 <= i < stop ==> c[i] in nodes && c[i] != ROOT && Some(c[i]) != end && Some(c[i]) != wnode
      requires forall i :: 0 <= i < stop ==> nodes[c[i]].treelock !in {0, TREELOCK_WAIT_OFFSET, TREELOCK_WRITE}
      requires wnode.Some? ==> wnode.value in nodes && nodes[wnode.value].treelock == TREELOCK_WRITE
      modifies this`nodes
      ensures nodes == Released(old(nodes), c[..stop], wnode)
    {
      hide Tree, TopChain;
      if wnode.Some? {
        assert nodes[wnode.value].treelock == TREELOCK_WRITE;
        nodes := SetLock(nodes, wnode.value, 0);
      }
      var node := base;
      ghost var i := 0;
      ChainAt(old(nodes), base, c, 0);
      while Some(node) != end && node != ROOT
        invariant 0 <= i <= stop && node == c[i] && node in nodes
        invariant nodes == Released(old(nodes), c[..i], wnode)
        decreases stop - i
      {
        ChainAt(old(nodes), base, c, i);
        assert nodes[node] == old(nodes)[node];
        assert nodes[node].treelock != 0 && nodes[node].treelock != TREELOCK_WAIT_OFFSET &&
            nodes[node].treelock != TREELOCK_WRITE;
        var t := nodes[node].treelock - 1;
        if t == TREELOCK_WAIT_OFFSET {
          t := 0;
        }
        ReleasedOne(old(nodes), c, i, wnode);
        nodes := SetLock(nodes, node, t);
        node := nodes[node].link.value.parent;
        i := i + 1;
        ChainAt(old(nodes), base, c, i);
      }
    }

    /** `try_get_path` with `need_lock`: lock the target for writing, then walk up locking each node
        for reading; on any obstacle give back what was taken. */
    method TryGetPath(q: Request, oom: Option<nat>) returns (o: Outcome)
      requires Coupled({}, 0) && Tree(nodes) && q.base in nodes
      modifies this`nodes
      ensures (nodes, o) == TryGet(old(nodes), q, oom)
      ensures Coupled({}, 0) && Tree(nodes)
    {
      hide NodeTable.Consistent, Agree, Tree, TopChain, Chain, NodeAt, Walk;
      if oom == Some(0) { return NoMemory; }
      ghost var before := nodes;
      var wnode: Option<Id> := None;
      assert UniqueNames(nodes) by { TreeNames(nodes); }
      if q.write {
        wnode := LookupNode(Link(q.base, q.name));
        AtIsLive(nodes, Link(q.base, q.name));
        if wnode.Some? && nodes[wnode.value].treelock != 0 {
          if nodes[wnode.value].treelock > 0 {
            nodes := SetLock(nodes, wnode.value, nodes[wnode.value].treelock + TREELOCK_WAIT_OFFSET);
          }
          assert nodes == SetLock(before, wnode.value, Marked(before[wnode.value].treelock));
          AgreeLocks(before, nodes, idTable.contents, nameTable.contents);
          return Again;
        }
      }
      assert wnode == Target(nodes, q);
      o := LockUp(q, wnode, oom);
      AgreeLocks(before, nodes, idTable.contents, nameTable.contents);
    }

    /** The second part of `try_get_path`, from the write lock on. */
    method LockUp(q: Request, wnode: Option<Id>, oom: Option<nat>) returns (o: Outcome)
      requires Tree(nodes) && q.base in nodes && wnode == Target(nodes, q)
      requires wnode.Some? ==> wnode.value in nodes && nodes[wnode.value].treelock == 0
      requires oom != Some(0)
      modifies this`nodes
      ensures (nodes, o) == TryGet(old(nodes), q, oom)
      ensures KeepsLinks(old(nodes), nodes)
    {
      hide Tree, TopChain, Chain, NodeAt, Target, Walk;
      ghost var before := nodes;
      ghost var c := Path(nodes, q.base);
      assert wnode.Some? ==> wnode.value !in c by { TargetOff(nodes, q, c); }
      LockedNone(before, c, wnode);
      if wnode.Some? {
        nodes := SetLock(nodes, wnode.value, TREELOCK_WRITE);
      }
      ChainEnds(before, q.base, c);
      var node, taken, err := WalkUp(q.base, wnode, oom, before, c);
      if err.Some? {
        RollBack(q.base, wnode, node, before, c, |taken|);
        o := err.value;
      } else {
        o := Granted(taken, wnode);
      }
    }

    /** The loop of `try_get_path`: where it stopped, the nodes it locked, and why it stopped. */
    method WalkUp(base: Id, wnode: Option<Id>, oom: Option<nat>, ghost before: Nodes, ghost c: seq<Id>)
      returns (node: Id, taken: seq<Id>, err: Option<Outcome>)
      requires TopChain(before, base, c) && |c| > 0 && nodes == Locked(before, c[..0], wnode)
      requires wnode.Some? ==> wnode.value !in c
      requires (forall x :: x in c ==> x in before) && before[c[|c| - 1]].link.None?
      modifies this`nodes
      ensures |taken| < |c| && taken == c[..|taken|] && node == c[|taken|]
      ensures nodes == Locked(before, taken, wnode) && Walk(before, c, 0, oom) == (|taken|, err)
      ensures err.Some? ==> node != ROOT
      ensures forall j :: 0 <= j < |taken| ==> c[j] in before && c[j] != ROOT && before[c[j]].treelock >= 0
    {
      hide TopChain, Locked;
      var i := 0;
      node, taken, err := base, [], None;
      ChainAt(before, base, c, 0);
      while node != ROOT && err.None?
        invariant 0 <= i < |c| && node == c[i] && node in before
        invariant nodes == Locked(before, c[..i], wnode) && taken == c[..i]
        invariant forall j :: 0 <= j < i ==> c[j] in before && c[j] != ROOT && before[c[j]].treelock >= 0
        invariant if err.None? then Walk(before, c, 0, oom) == Walk(before, c, i, oom)
            else Walk(before, c, 0, oom) == (i, err)
        invariant err.Some? ==> node != ROOT
        decreases |c| - i, err.None?
      {
        ChainAt(before, base, c, i);
        LockedOne(before, c, i, wnode);
        if nodes[node].link.None? {
          err := Some(Stale);
        } else if oom == Some(i + 1) {
          err := Some(NoMemory);
        } else if nodes[node].treelock < 0 {
          err := Some(Again);
        } else {
          nodes := SetLock(nodes, node, nodes[node].treelock + 1);
          taken := taken + [node];
          node := nodes[node].link.value.parent;
          i := i + 1;
          ChainAt(before, base, c, i);
        }
      }
    }

    /** The failure exit of `try_get_path`: `unlock_path` up to the node that could not be locked. */
    method RollBack(base: Id, wnode: Option<Id>, node: Id, ghost before: Nodes, ghost c: seq<Id>, ghost i: nat)
      requires Tree(before) && TopChain(before, base, c) && i < |c| && c[i] == node && node != ROOT
      requires nodes == Locked(before, c[..i], wnode)
      requires forall j :: 0 <= j < i ==> c[j] in before && c[j] != ROOT && before[c[j]].treelock >= 0
      requires wnode.Some? ==> wnode.value in before && before[wnode.value].treelock == 0 && wnode.value !in c
      modifies this`nodes
      ensures nodes == before
    {
      hide Tree, TopChain, Chain;
      LockedKeeps(before, c, i, wnode, base);
      UnlockPath(base, wnode, Some(node), c, i);
      ReleaseLocked(before, c, i, wnode);
    }

    /** `try_get_path2`: both paths or none. */
    method TryGetPath2(qs: seq<Request>, oom: Option<nat>, oom2: Option<nat>) returns (r: Result)
      requires Coupled({}, 0) && Tree(nodes) && |qs| == 2 && (forall q :: q in qs ==> q.base in nodes)
      requires forall n :: n in nodes ==> nodes[n].treelock < INT_MAX - 1
      modifies this`nodes
      ensures (nodes, r) == TryAll(old(nodes), qs, oom, oom2)
      ensures Coupled({}, 0) && Tree(nodes)
    {
      hide NodeTable.Consistent, Agree, Tree, TopChain, Chain, NodeAt, Target, TryGet;
      ghost var before := nodes;
      var q1, q2 := qs[0], qs[1];
      var o1 := TryGetPath(q1, oom);
      if !o1.Granted? { return Failed(o1); }
      ghost var mid := nodes;
      TryGetGranted(before, q1, oom);
      TryGetKeeps(before, q1, oom);
      var o2 := TryGetPath(q2, oom2);
      if o2.Granted? {
        return Held([Grant(o1.chain, o1.wnode), Grant(o2.chain, o2.wnode)]);
      }
      TryGetFailed(mid, q2, oom2);
      UndoFirst(q1, o1, before, mid);
      r := Failed(o2);
    }

    /** The failure exit of `try_get_path2`. */
    method UndoFirst(q: Request, o: Outcome, ghost before: Nodes, ghost mid: Nodes)
      requires Coupled({}, 0) && Tree(before) && q.base in before && o.Granted?
      requires mid == Locked(before, o.chain, o.wnode) && OnlyMarks(mid, nodes)
      requires Chain(before, q.base) == o.chain + [ROOT]
      requires forall n :: n in before ==> before[n].treelock < INT_MAX - 1
      requires forall n :: n in o.chain ==> n in before && n != ROOT && before[n].treelock >= 0
      requires o.wnode.Some? ==> o.wnode.value in before && before[o.wnode.value].treelock == 0
      requires o.wnode.Some? ==> o.wnode.value !in o.chain
      modifies this`nodes
      ensures nodes == Released(old(nodes), o.chain, o.wnode)
      ensures Coupled({}, 0) && Tree(nodes)
    {
      hide NodeTable.Consistent, Agree, Tree, TopChain, Chain;
      SecondFailed(before, mid, nodes, q, o);
      UnlockPath(q.base, o.wnode, None, o.chain + [ROOT], |o.chain|);
      assert (o.chain + [ROOT])[..|o.chain|] == o.chain;
      AgreeLocks(old(nodes), nodes, idTable.contents, nameTable.contents);
    }
  }

  ghost function Path(nodes: Nodes, base: Id): (c: seq<Id>)
    requires Tree(nodes) && base in nodes
    ensures c == Chain(nodes, base) && TopChain(nodes, base, c) && |c| > 0
  {
    Chain(nodes, base)
  }

  lemma {:induction false} TargetOff(nodes: Nodes, q: Request, c: seq<Id>)
    requires Tree(nodes) && q.base in nodes && c == Chain(nodes, q.base)
    ensures Target(nodes, q).Some? ==> Target(nodes, q).value !in c
  {
    if Target(nodes, q).Some? { TargetOffChain(nodes, q.base, Target(nodes, q).value); }
  }

  /** Changing lock words changes neither table. */
  lemma {:induction false} AgreeLocks(a: Nodes, b: Nodes, ids: map<Id, Id>, names: map<Link, Id>)
    requires Agree(a, {}, ids, names) && Tree(a) && KeepsLinks(a, b)
    ensures Agree(b, {}, ids, names) && Tree(b)
  {
    AgreeFrame(a, b, {}, ids, names);
    KeepsTree(a, b);
  }

  lemma {:induction false} LockedNone(nodes: Nodes, c: seq<Id>, wnode: Option<Id>)
    requires wnode.Some? ==> wnode.value in nodes
    ensures Locked(nodes, c[..0], wnode) == if wnode.Some? then SetLock(nodes, wnode.value, TREELOCK_WRITE) else nodes
  {
  }

  lemma {:induction false} LockedOne(nodes: Nodes, c: seq<Id>, i: nat, wnode: Option<Id>)
    requires i < |c| && c[i] in nodes && c[i] !in c[..i] && Some(c[i]) != wnode
    ensures c[i] in Locked(nodes, c[..i], wnode) && Locked(nodes, c[..i], wnode)[c[i]] == nodes[c[i]]
    ensures Locked(nodes, c[..i + 1], wnode) == SetLock(Locked(nodes, c[..i], wnode), c[i], nodes[c[i]].treelock + 1)
  {
    assert c[..i + 1] == c[..i] + [c[i]];
  }

  lemma {:induction false} ReleaseLocked(nodes: Nodes, c: seq<Id>, i: nat, wnode: Option<Id>)
    requires i <= |c| && (forall j :: 0 <= j < i ==> c[j] in nodes && nodes[c[j]].treelock >= 0)
    requires wnode.Some? ==> wnode.value in nodes && nodes[wnode.value].treelock == 0 && wnode.value !in c
    ensures Released(Locked(nodes, c[..i], wnode), c[..i], wnode) == nodes
  {
    forall n | n in c[..i] ensures n in nodes && nodes[n].treelock >= 0 {
      var j :| 0 <= j < i && c[j] == n;
    }
  }

  /** While a path is partly locked the tree is as before and the words on the way satisfy the asserts
      of `unlock_path`. */
  lemma {:induction false} LockedKeeps(nodes: Nodes, c: seq<Id>, i: nat, wnode: Option<Id>, base: Id)
    requires Tree(nodes) && TopChain(nodes, base, c) && i < |c|
    requires forall j :: 0 <= j < i ==> c[j] in nodes && nodes[c[j]].treelock >= 0
    requires wnode.Some? ==> wnode.value in nodes && wnode.value !in c
    ensures var m := Locked(nodes, c[..i], wnode);
      && Tree(m) && TopChain(m, base, c)
      && (forall j :: 0 <= j < i ==> c[j] in m && m[c[j]].treelock !in {0, TREELOCK_WAIT_OFFSET, TREELOCK_WRITE})
      && (forall j :: 0 <= j < i ==> c[j] != c[i])
      && (wnode.Some? ==> m[wnode.value].treelock == TREELOCK_WRITE)
  {
    var m := Locked(nodes, c[..i], wnode);
    KeepsTree(nodes, m);
    ChainMembers(nodes, base, c);
    ChainFrame(nodes, m, base, c);
    ChainDistinct(nodes, base, c);
    forall j | 0 <= j < i ensures c[j] in m && m[c[j]].treelock !in {0, TREELOCK_WAIT_OFFSET, TREELOCK_WRITE} {
      assert c[j] in c[..i];
    }
  }

  /** After the second path failed, the first one can be unlocked: at most a mark was added on its
      nodes. */
  lemma {:induction false} SecondFailed(before: Nodes, mid: Nodes, after: Nodes, q: Request, o: Outcome)
    requires Tree(before) && q.base in before && o.Granted? && mid == Locked(before, o.chain, o.wnode)
    requires Chain(before, q.base) == o.chain + [ROOT] && OnlyMarks(mid, after)
    requires forall n :: n in before ==> before[n].treelock < INT_MAX - 1
    requires forall n :: n in o.chain ==> n in before && n != ROOT && before[n].treelock >= 0
    requires o.wnode.Some? ==> o.wnode.value in before && before[o.wnode.value].treelock == 0
    requires o.wnode.Some? ==> o.wnode.value !in o.chain
    ensures var c := o.chain + [ROOT];
      && Tree(after) && TopChain(after, q.base, c)
      && (forall i :: 0 <= i < |o.chain| ==> c[i] in after && c[i] != ROOT && Some(c[i]) != o.wnode)
      && (forall i :: 0 <= i < |o.chain| ==> after[c[i]].treelock !in {0, TREELOCK_WAIT_OFFSET, TREELOCK_WRITE})
      && (o.wnode.Some? ==> o.wnode.value in after && after[o.wnode.value].treelock == TREELOCK_WRITE)
  {
    var c := o.chain + [ROOT];
    assert KeepsLinks(before, after);
    KeepsTree(before, after);
    assert TopChain(after, q.base, c);
    forall i | 0 <= i < |o.chain|
      ensures c[i] in after && c[i] != ROOT && Some(c[i]) != o.wnode
      ensures after[c[i]].treelock !in {0, TREELOCK_WAIT_OFFSET, TREELOCK_WRITE}
    {
      assert c[i] in o.chain;
    }
  }

  /** A position of a chain: the node is live, occurs once, and its parent is the next one. */
  lemma {:induction false} ChainAt(nodes: Nodes, id: Id, c: seq<Id>, i: nat)
    requires TopChain(nodes, id, c) && i < |c|
    ensures c[0] == id && c[i] in nodes && c[i] !in c[..i]
    ensures i < |c| - 1 ==> nodes[c[i]].link.Some? && nodes[c[i]].link.value.parent == c[i + 1]
    ensures i == |c| - 1 ==> nodes[c[i]].link.None?
  {
    ChainNext(nodes, id, c, i);
    ChainDistinct(nodes, id, c);
  }

  lemma {:induction false} ReleasedOne(nodes: Nodes, c: seq<Id>, i: nat, wnode: Option<Id>)
    requires i < |c| && c[i] in nodes && c[i] !in c[..i] && Some(c[i]) != wnode
    ensures Released(nodes, c[..i + 1], wnode) ==
            SetLock(Released(nodes, c[..i], wnode), c[i], Dropped(nodes[c[i]].treelock))
  {
    assert c[..i + 1] == c[..i] + [c[i]];
  }

  lemma {:induction false} ForgetFacts(nodes: Nodes, dots: Dots, id: Id, n: nat)
    requires Tree(nodes) && RefOk(nodes, dots) && id in nodes && id != ROOT && 1 <= n <= nodes[id].nlookup
    ensures var m := LowerLookup(nodes, id, n);
      && m == nodes[id := nodes[id].(nlookup := nodes[id].nlookup - n)] && Tree(m)
      && Forget(nodes, id, n) == (if n == nodes[id].nlookup then Unref(m, id) else m)
      && (n == nodes[id].nlookup ==> RefOwed(m, dots, id))
    ensures Tree(Forget(nodes, id, n)) && RefOk(Forget(nodes, id, n), dots)
    ensures forall y: Id :: Lookups(Forget(nodes, id, n), y) == Lookups(nodes, y) - (if y == id then n else 0)
  {
    hide RefOk, RefOwed, Chain, TopChain, Unref;
    ForgetOwes(nodes, dots, id, n);
    ForgetCorrect(nodes, dots, id, n);
  }

  /** The node bound under a looked-up directory can lose its name without a deletion. */
  lemma {:induction false} NamedFacts(nodes: Nodes, dots: Dots, l: Link)
    requires Tree(nodes) && RefOk(nodes, dots) && l.parent in nodes && nodes[l.parent].nlookup > 0
    ensures var at := NodeAt(nodes, l);
      at.Some? ==>
        && at.value in nodes && nodes[at.value].link == Some(l) && DetachesUnlocked(nodes, at.value)
        && Relinked(nodes, Detach(nodes, at.value), at.value) && Detach(nodes, at.value)[at.value].link.None?
        && (forall k, y: Id :: Bound(Detach(nodes, at.value), k, y) <==> Bound(nodes, k, y) && y != at.value)
  {
    if NodeAt(nodes, l).Some? { DetachShape(nodes, dots, NodeAt(nodes, l).value); }
  }

  /** After the target's old node lost its name (or there was none), the moved node can lose its own. */
  lemma {:induction false} RenameCleared(nodes: Nodes, n1: Nodes, dots: Dots, from: Link, to: Link)
    requires Tree(nodes) && RefOk(nodes, dots) && NodeAt(nodes, from).Some?
    requires from.parent in nodes && nodes[from.parent].nlookup > 0 && to.parent in nodes
    requires nodes[to.parent].nlookup > 0
    requires n1 == DetachAt(nodes, NodeAt(nodes, to)) && Tree(n1) && RefOk(n1, dots)
    ensures var x := NodeAt(nodes, from).value;
      && x in n1 && DetachesUnlocked(n1, x) && to.parent in n1
      && (forall y: Id :: !Bound(n1, to, y))
      && (n1[x].link.Some? ==> n1[x].link == Some(from) && from.parent in n1 && n1[from.parent].nlookup > 0)
  {
    hide Tree, RefOk, Detach, DetachesUnlocked;
    TreeNames(nodes);
    NamedFacts(nodes, dots, to);
    var x := NodeAt(nodes, from).value;
    forall y: Id ensures !Bound(n1, to, y) {
      if Bound(n1, to, y) { NodeAtIs(nodes, to, y); }
    }
    if n1[x].link.Some? {
      TreeNames(n1);
      NodeAtIs(n1, from, x);
      NamedFacts(n1, dots, from);
    } else {
      Nameless(n1, x);
    }
  }

  lemma {:induction false} Nameless(nodes: Nodes, x: Id)
    requires x in nodes && nodes[x].link.None?
    ensures DetachesUnlocked(nodes, x) && Detach(nodes, x) == nodes
  {
  }

  lemma {:induction false} RenameFreed(n1: Nodes, dots: Dots, x: Id, to: Link)
    requires Tree(n1) && RefOk(n1, dots) && x in n1 && to.parent in n1 && (forall y: Id :: !Bound(n1, to, y))
    requires n1[x].link.Some? ==> n1[x].link.value.parent in n1 && n1[n1[x].link.value.parent].nlookup > 0
    ensures var n2 := Detach(n1, x); x in n2 && n2[x].link.None? && to.parent in n2 && NodeAt(n2, to).None?
  {
    hide Tree, RefOk, Detach;
    if n1[x].link.Some? {
      DetachShape(n1, dots, x);
    } else {
      Nameless(n1, x);
    }
  }

  /** A name taken away shortens the chains through the node to end there, and no other. */
  lemma {:induction false} DetachedChain(nodes: Nodes, dots: Dots, x: Id, p: Id)
    requires Tree(nodes) && RefOk(nodes, dots) && x in nodes && p in nodes && nodes[p].nlookup > 0
    ensures Tree(Detach(nodes, x)) && RefOk(Detach(nodes, x), dots) && p in Detach(nodes, x)
    ensures x !in Chain(nodes, p) ==> Chain(Detach(nodes, x), p) == Chain(nodes, p)
    ensures x in Chain(nodes, p) ==> x in Chain(Detach(nodes, x), p)
  {
    if nodes[x].link.Some? {
      DetachCorrect(nodes, dots, x);
      UnlinkedTree(nodes, x);
      assert p in Detach(nodes, x) by { Looked(Unlinked(nodes, x), dots, Detach(nodes, x), p); }
      if x in Chain(nodes, p) {
        var i :| 0 <= i < |Chain(nodes, p)| && Chain(nodes, p)[i] == x;
        assert Chain(nodes, p)[..i + 1][i] == x;
      }
    }
  }

  lemma {:induction false} Looked(nodes: Nodes, dots: Dots, r: Nodes, p: Id)
    requires OnlyGarbageGone(nodes, dots, r) && p in nodes && nodes[p].nlookup > 0
    ensures p in r
  {
    assert Referenced(nodes, dots, p);
  }

  /** Binding a node below itself makes a circle. */
  lemma {:induction false} CircleIsNoTree(nodes: Nodes, x: Id, l: Link)
    requires Tree(nodes) && x in nodes && nodes[x].link.None? && l.parent in nodes && x in Chain(nodes, l.parent)
    ensures !Tree(Attach(nodes, x, l))
  {
    var r := Attach(nodes, x, l);
    if Tree(r) {
      TargetOffChain(r, l.parent, x);
      UnlinkedTree(r, x);
      TreeFrame(Unlinked(r, x), nodes);
    }
  }

  /** A rename keeps the tree unless it moves a node below itself: then, and only then, it makes a circle. */
  lemma {:induction false} RenameTree(nodes: Nodes, dots: Dots, from: Link, to: Link, hiding: bool, copied: bool)
    requires Tree(nodes) && RefOk(nodes, dots)
    requires from.parent in nodes && nodes[from.parent].nlookup > 0 && to.parent in nodes
    requires nodes[to.parent].nlookup > 0
    ensures Tree(RenameNodes(nodes, from, to, hiding, copied)) <==> !Circular(nodes, from, to, hiding, copied)
    ensures !Circular(nodes, from, to, hiding, copied) ==> RefOk(RenameNodes(nodes, from, to, hiding, copied), dots)
  {
    hide RefOk, Detach, Attach, Chain, TopChain, Tree;
    var at, over := NodeAt(nodes, from), NodeAt(nodes, to);
    if at.Some? && !(over.Some? && hiding) {
      var x, n1 := at.value, DetachAt(nodes, over);
      if over.Some? {
        TargetOffChain(nodes, to.parent, over.value);
        DetachedChain(nodes, dots, over.value, to.parent);
        NamedFacts(nodes, dots, to);
      }
      RenameCleared(nodes, n1, dots, from, to);
      DetachedChain(n1, dots, x, to.parent);
      RenameFreed(n1, dots, x, to);
      var n2 := Detach(n1, x);
      if x in Path(nodes, to.parent) {
        CircleIsNoTree(n2, x, to);
      } else {
        NamedIsNotRoot(nodes, from, x);
        AttachCorrect(n2, dots, x, to);
      }
    }
  }

  lemma {:induction false} NamedIsNotRoot(nodes: Nodes, l: Link, x: Id)
    requires Tree(nodes) && Bound(nodes, l, x)
    ensures x != ROOT
  {
  }

  /** The rename would give a node a name below itself. */
  ghost predicate Circular(nodes: Nodes, from: Link, to: Link, hiding: bool, copied: bool)
    requires Tree(nodes) && to.parent in nodes
  {
    && NodeAt(nodes, from).Some? && !(NodeAt(nodes, to).Some? && hiding) && copied
    && NodeAt(nodes, from).value in Chain(nodes, to.parent)
  }

  lemma {:induction false} TreeNames(nodes: Nodes)
    requires Tree(nodes)
    ensures UniqueNames(nodes)
  {
  }

  lemma {:induction false} AtIsLive(nodes: Nodes, l: Link)
    ensures NodeAt(nodes, l).Some? ==> NodeAt(nodes, l).value in nodes
  {
  }

  lemma {:induction false} CreatedInSteps(nodes: Nodes, x: Id, l: Link, generation: nat)
    requires x !in nodes && l.parent in nodes
    ensures Create(nodes, x, l, generation) == IncLookup(Attach(nodes[x := Node(None, 0, 0, 0, generation)], x, l), x)
  {
  }

  lemma {:induction false} AttachLive(nodes: Nodes, x: Id, l: Link)
    requires x in nodes && l.parent in nodes
    ensures x in Attach(nodes, x, l)
  {
  }

  /** The counters have moved on: within the generation, or into the next one, which wraps at 32 bits. */
  ghost predicate Later(generation: nat, ctr: nat, generation': nat, ctr': nat) {
    || (generation' == generation && ctr' > ctr)
    || (generation' == (generation + 1) % ID_LIMIT && ctr' <= ctr)
  }

  /** Counting on past the wrap, the position of the next id after a counter. */
  function Position(ctr: nat, id: nat): nat {
    if id > ctr then id else id + ID_LIMIT
  }

  /** The id at a position cannot be given out. */
  predicate Taken(nodes: Nodes, position: nat) {
    var id := if position < ID_LIMIT then position else position - ID_LIMIT;
    id == 0 || id == UNKNOWN_INO || id in nodes
  }

  lemma {:induction false} LaterAt(generation: nat, ctr: nat, p: nat)
    requires ctr < p && (p < ID_LIMIT || p - ID_LIMIT <= ctr)
    ensures p < ID_LIMIT ==> Later(generation, ctr, generation, p)
    ensures p >= ID_LIMIT ==> Later(generation, ctr, (generation + 1) % ID_LIMIT, p - ID_LIMIT)
  {
  }

  /** Over any number of calls, until the generation itself wraps, every pair is larger than all before:
      no (generation, id) pair is handed out twice. */
  lemma {:induction false} PairsGrow(pairs: seq<(nat, nat)>, i: nat, j: nat)
    requires i < j < |pairs|
    requires forall k :: 0 < k < |pairs| ==> Later(pairs[k - 1].0, pairs[k - 1].1, pairs[k].0, pairs[k].1)
    requires forall k :: 0 <= k < |pairs| ==> pairs[k].0 < ID_LIMIT
    requires forall k :: 0 < k < |pairs| ==> !(pairs[k - 1].0 == ID_LIMIT - 1 && pairs[k].0 == 0)
    ensures pairs[i].0 < pairs[j].0 || (pairs[i].0 == pairs[j].0 && pairs[i].1 < pairs[j].1)
    decreases j
  {
    if i < j - 1 {
      PairsGrow(pairs, i, j - 1);
    }
    assert Later(pairs[j - 1].0, pairs[j - 1].1, pairs[j].0, pairs[j].1);
  }

  /** Fewer live nodes than ids leave an id free. */
  lemma {:induction false} FreeId(nodes: Nodes) returns (id: Id)
    requires |nodes| < UNKNOWN_INO - 1
    ensures 0 < id < UNKNOWN_INO && id !in nodes
  {
    assert |nodes| == |nodes.Keys|;
    if forall i: Id :: 0 < i < UNKNOWN_INO ==> i in nodes {
      AllFrom(nodes.Keys, 1, UNKNOWN_INO - 1);
    }
    id :| 0 < id < UNKNOWN_INO && id !in nodes;
  }

  lemma {:induction false} RootTree()
    ensures Tree(map[ROOT := Node(None, 1, 1, 0, 0)])
    ensures Agree(map[ROOT := Node(None, 1, 1, 0, 0)], {}, map[ROOT := ROOT], map[])
  {
    assert TopChain(map[ROOT := Node(None, 1, 1, 0, 0)], ROOT, [ROOT]);
  }

  /** What `find_node` did: it counted a lookup of the bound node, entered a new node under a free
      id, or failed and changed no node. */
  ghost predicate Found(before: Nodes, after: Nodes, l: Link, generation: nat, r: Option<Id>)
    requires l.parent in before
  {
    match NodeAt(before, l)
    case Some(x) => r == Some(x) && after == IncLookup(before, x)
    case None =>
      if r.None? then after == before
      else 0 < r.value < UNKNOWN_INO && r.value !in before && after == Create(before, r.value, l, generation)
  }

  /** The same by what a caller sees: the name leads to a node with one lookup more, a new node has the current
      generation, and every other record is as before but for the reference count of the directory. */
  ghost predicate Counts(before: Nodes, after: Nodes, l: Link, generation: nat, x: Id) {
    && NodeAt(after, l) == Some(x) && LookedUp(before, after, x)
    && (x in before ==> NodeAt(before, l) == Some(x))
    && (x !in before ==> after[x].generation == generation && after[x].treelock == 0)
    && (forall n :: n in before && n != x && n != l.parent ==> after[n] == before[n])
  }

  /** The name is bound, or there is memory to bind it. */
  ghost predicate Bindable(before: Nodes, l: Link, memory: bool, copied: bool) {
    NodeAt(before, l).Some? || (memory && (|l.name| < 32 || copied))
  }

  /** The counters move to the next id that can be given out, exactly if a new node was allocated. */
  ghost predicate Drawn(before: Nodes, l: Link, memory: bool, r: Option<Id>, g: nat, c: nat, g': nat, c': nat) {
    if NodeAt(before, l).Some? || !memory then c' == c && g' == g
    else
      && Later(g, c, g', c') && (r.Some? ==> r.value == c')
      && forall q :: c < q < Position(c, c') ==> Taken(before, q)
  }

  lemma {:induction false} FoundCounts(before: Nodes, after: Nodes, dots: Dots, l: Link, generation: nat, r: Option<Id>)
    requires Tree(before) && RefOk(before, dots) && l.parent in before && Found(before, after, l, generation, r)
    ensures r.Some? ==> Counts(before, after, l, generation, r.value)
  {
    hide Tree, RefOk, Create, IncLookup, LookedUp, NodeAt;
    if NodeAt(before, l).Some? {
      var x := NodeAt(before, l).value;
      AtIsLive(before, l);
      IncLookupCorrect(before, dots, x);
      TreeNames(after);
      NodeAtIs(after, l, x);
    } else if r.Some? {
      CreateCorrect(before, dots, r.value, l, generation);
    }
  }

  /** The nodes a cascade from `id` deletes are not locked. */
  ghost predicate DeletesUnlocked(nodes: Nodes, id: Id) {
    id in nodes ==> forall n :: n in nodes && n !in Unref(nodes, id) ==> nodes[n].treelock == 0
  }

  ghost predicate DetachesUnlocked(nodes: Nodes, id: Id) {
    id in nodes ==> forall n :: n in nodes && n !in Detach(nodes, id) ==> nodes[n].treelock == 0
  }

  lemma {:induction false} OwedPositive(nodes: Nodes, dots: Dots, id: Id)
    requires RefOwed(nodes, dots, id)
    ensures id in nodes && nodes[id].refctr > 0
  {
    assert Counted(nodes, dots, id, 1);
  }

  lemma {:induction false} UnrefLowers(nodes: Nodes, id: Id)
    requires id in nodes && nodes[id].refctr > 1
    ensures var r := LowerRef(nodes, id);
      Unref(nodes, id) == r && r.Keys == nodes.Keys && forall n :: n in nodes ==> nodes[n].link == r[n].link
  {
  }

  /** One turn of the cascade: the node goes, unlocked, and its parent owes a reference. */
  lemma {:induction false} DeleteFacts(nodes: Nodes, dots: Dots, id: Id)
    requires Tree(nodes) && RefOwed(nodes, dots, id) && DeletesUnlocked(nodes, id) && nodes[id].refctr <= 1
    ensures var rest := nodes - {id};
      && |rest| < |nodes| && nodes[id].treelock == 0
      && (nodes[id].link.None? ==> Unref(nodes, id) == rest)
      && (nodes[id].link.Some? ==>
           var p := nodes[id].link.value.parent;
           Tree(rest) && RefOwed(rest, dots, p) && DeletesUnlocked(rest, p) && p in rest &&
               Unref(nodes, id) == Unref(rest, p))
  {
    hide Chain, TopChain, SameChains, Children, UniqueNames, Acyclic;
    assert Counted(nodes, dots, id, 1);
    OwedByParent(nodes, dots, id);
    LeafRemoval(nodes, id);
    RemoveOne((nodes - {id}).Keys, nodes.Keys, id);
    UnrefShrinks(nodes, id);
  }

  lemma {:induction false} DetachFacts(nodes: Nodes, dots: Dots, id: Id)
    requires Tree(nodes) && RefOk(nodes, dots) && id in nodes && nodes[id].link.Some? && DetachesUnlocked(nodes, id)
    ensures var m, p := Unlinked(nodes, id), nodes[id].link.value.parent;
      && Tree(m) && RefOwed(m, dots, p) && p in m && DeletesUnlocked(m, p) && Detach(nodes, id) == Unref(m, p)
      && Tree(Detach(nodes, id)) && RefOk(Detach(nodes, id), dots)
  {
    hide RefOk, RefOwed, Chain, TopChain, OnlyGarbageGone, Survivors;
    DetachCorrect(nodes, dots, id);
    UnlinkedOwes(nodes, dots, id);
    UnlinkedTree(nodes, id);
  }

  lemma {:induction false} AgreeFrame(a: Nodes, b: Nodes, dying: set<Id>, ids: map<Id, Id>, names: map<Link, Id>)
    requires Agree(a, dying, ids, names) && a.Keys == b.Keys && forall n :: n in a ==> a[n].link == b[n].link
    ensures Agree(b, dying, ids, names)
  {
  }

  lemma {:induction false} AgreeCut(nodes: Nodes, dying: set<Id>, ids: map<Id, Id>, names: map<Link, Id>, id: Id)
    requires Agree(nodes, dying, ids, names) && id in nodes
    ensures id !in dying
    ensures nodes[id].link.None? ==> Agree(nodes - {id}, dying + {id}, ids, names)
    ensures nodes[id].link.Some? ==>
              var l := nodes[id].link.value;
              && l in names && names[l] == id
              && Agree(nodes - {id}, dying + {id}, ids, names - {l})
  {
    assert (nodes - {id}).Keys + (dying + {id}) == nodes.Keys + dying;
  }

  lemma {:induction false} AgreeIdCut(nodes: Nodes, dying: set<Id>, id: Id, ids: map<Id, Id>, names: map<Link, Id>)
    requires Agree(nodes, dying + {id}, ids, names) && id !in dying
    ensures id in ids && ids[id] == id && Agree(nodes, dying, ids - {id}, names)
  {
  }

  lemma {:induction false} AgreeUnlinked(nodes: Nodes, ids: map<Id, Id>, names: map<Link, Id>, id: Id)
    requires Agree(nodes, {}, ids, names) && id in nodes && nodes[id].link.Some?
    ensures var l := nodes[id].link.value;
      && l in names && names[l] == id
      && Agree(Unlinked(nodes, id), {}, ids, names - {l})
  {
    assert Unlinked(nodes, id).Keys == nodes.Keys;
  }

  lemma {:induction false} AgreeAttach(nodes: Nodes, ids: map<Id, Id>, names: map<Link, Id>, id: Id, l: Link)
    requires Agree(nodes, {}, ids, names) && id in nodes && nodes[id].link.None? && l.parent in nodes
    requires NodeAt(nodes, l).None?
    ensures l !in names && Agree(Attach(nodes, id, l), {}, ids, names[l := id])
  {
    assert Attach(nodes, id, l).Keys == nodes.Keys;
  }

  /** A new nameless node adds an id and no name. */
  lemma {:induction false} AgreeFresh(
      nodes: Nodes, ids: map<Id, Id>, names: map<Link, Id>, x: Id, l: Link, generation: nat)
    requires Agree(nodes, {}, ids, names) && x !in nodes && NodeAt(nodes, l).None?
    ensures x !in ids
    ensures var r := nodes[x := Node(None, 0, 0, 0, generation)]; Agree(r, {}, ids[x := x], names) && NodeAt(r, l).None?
  {
    var r := nodes[x := Node(None, 0, 0, 0, generation)];
    assert r.Keys == nodes.Keys + {x};
    forall k ensures !Bound(r, l, k) {
      assert !Bound(nodes, l, k);
    }
  }

  /** The cascade only removes, and removes a node whose count was one. */
  lemma {:induction false} UnrefShrinks(nodes: Nodes, id: Id)
    requires id in nodes
    ensures Unref(nodes, id).Keys <= nodes.Keys
    ensures nodes[id].refctr <= 1 ==> id !in Unref(nodes, id)
    decreases |nodes|
  {
    if nodes[id].refctr <= 1 && nodes[id].link.Some? && nodes[id].link.value.parent in nodes - {id} {
      RemoveOne((nodes - {id}).Keys, nodes.Keys, id);
      UnrefShrinks(nodes - {id}, nodes[id].link.value.parent);
    }
  }

  ghost function IdMap(ids: set<Id>): map<Id, Id> {
    map id | id in ids :: id
  }

  /** The name table binds exactly the links of the live nodes. */
  ghost predicate NamesAgree(nodes: Nodes, m: map<Link, Id>) {
    && (forall l :: l in m ==> Bound(nodes, l, m[l]))
    && (forall id :: id in nodes && nodes[id].link.Some? ==> nodes[id].link.value in m && m[nodes[id].link.value] == id)
  }

  /** Both tables agree with the live nodes; `dying` ids are still in the id table. */
  /** Every node has a cell of its own, and no other cell is handed out. */
  ghost predicate Owned(ids: set<Id>, cells: map<Id, Cell>, live: set<Cell>) {
    && cells.Keys == ids
    && (forall i, j :: i in cells && j in cells && cells[i] == cells[j] ==> i == j)
    && (forall i :: i in cells ==> cells[i] in live)
    && (forall c :: c in live ==> exists i :: i in cells && cells[i] == c)
  }

  lemma {:induction false} NobodyOwns(cells: map<Id, Cell>, live: set<Cell>)
    requires Owned({}, cells, live)
    ensures live == {}
  {
  }

  function Keys(chain: seq<Entry<Id, Id>>): set<Id> {
    set e | e in chain :: e.key
  }

  lemma {:induction false} TakeOut(all: set<Id>, gone: set<Id>, rest: set<Id>, id: Id) returns (fewer: set<Id>)
    requires rest == all - gone && id in all && id !in gone
    ensures fewer == all - (gone + {id}) && id !in fewer && rest == fewer + {id} && |rest| == |fewer| + 1
  {
    fewer := all - (gone + {id});
    assert rest == fewer + {id};
    RemoveOne(fewer, rest, id);
  }

  lemma {:induction false} NoKeys(chain: seq<Entry<Id, Id>>)
    ensures Keys(chain[..0]) == {}
  {
  }

  lemma {:induction false} NextKey(chain: seq<Entry<Id, Id>>, pos: nat)
    requires NoDup(chain) && pos < |chain|
    ensures chain[pos].key in Keys(chain) && chain[pos].key !in Keys(chain[..pos])
    ensures Keys(chain[..pos + 1]) == Keys(chain[..pos]) + {chain[pos].key}
  {
    assert chain[..pos + 1] == chain[..pos] + [chain[pos]];
    assert chain[pos] in chain;
    forall e | e in chain[..pos] ensures e.key != chain[pos].key {
      var a :| 0 <= a < pos && chain[a] == e;
    }
  }

  /** The ids in the buckets from `i` on. */
  ghost function From(table: map<Id, Id>, at: Id -> nat, i: nat): set<Id> {
    set k | k in table && at(k) >= i
  }

  lemma {:induction false} FromAll(table: map<Id, Id>, at: Id -> nat)
    ensures From(table, at, 0) == table.Keys && |From(table, at, 0)| == |table|
  {
    assert From(table, at, 0) == table.Keys;
  }

  lemma {:induction false} FromNone(at: Id -> nat, buckets: seq<seq<Entry<Id, Id>>>, size: nat, table: map<Id, Id>)
    requires |buckets| >= size && Placed(at, buckets, size, table)
    ensures From(table, at, size) == {}
  {
  }

  lemma {:induction false} ChainFrom(
      at: Id -> nat, buckets: seq<seq<Entry<Id, Id>>>, size: nat, table: map<Id, Id>, i: nat)
    requires |buckets| >= size && Placed(at, buckets, size, table) && i < size
    ensures NoDup(buckets[i]) && Keys(buckets[i]) <= From(table, at, i)
    ensures From(table, at, i + 1) == From(table, at, i) - Keys(buckets[i])
  {
    var chain := buckets[i];
    forall k | k in From(table, at, i) ensures k in Keys(chain) <==> at(k) == i {
      if at(k) == i {
        assert Entry(k, table[k]) in chain;
      }
    }
  }

  lemma {:induction false} KeysAdd(ids: map<Id, Id>, id: Id)
    ensures ids[id := id].Keys == ids.Keys + {id}
  {
  }

  lemma {:induction false} OwnedCut(ids: set<Id>, cells: map<Id, Cell>, live: set<Cell>, id: Id)
    requires Owned(ids + {id}, cells, live) && id !in ids
    ensures id in cells && cells[id] in live && Owned(ids, cells - {id}, live - {cells[id]})
  {
    var rest := cells - {id};
    forall c | c in live - {cells[id]} ensures exists i :: i in rest && rest[i] == c {
      var i :| i in cells && cells[i] == c;
      assert i in rest;
    }
  }

  lemma {:induction false} OwnedAdd(ids: set<Id>, cells: map<Id, Cell>, live: set<Cell>, id: Id, cell: Cell)
    requires Owned(ids, cells, live) && id !in ids && cell !in live
    ensures Owned(ids + {id}, cells[id := cell], live + {cell})
  {
    var more := cells[id := cell];
    forall c | c in live + {cell} ensures exists i :: i in more && more[i] == c {
      if c == cell {
        assert more[id] == c;
      } else {
        var i :| i in cells && cells[i] == c;
        assert more[i] == c;
      }
    }
  }

  ghost predicate Agree(nodes: Nodes, dying: set<Id>, ids: map<Id, Id>, names: map<Link, Id>) {
    && dying !! nodes.Keys && ids == IdMap(nodes.Keys + dying)
    && NamesAgree(nodes, names)
  }

  lemma {:induction false} AgreesWithLookup(
      nodes: Nodes, dying: set<Id>, ids: map<Id, Id>, names: map<Link, Id>, l: Link)
    requires UniqueNames(nodes) && Agree(nodes, dying, ids, names)
    ensures NodeAt(nodes, l) == if l in names then Some(names[l]) else None
  {
    if l in names { NodeAtIs(nodes, l, names[l]); }
  }
}
