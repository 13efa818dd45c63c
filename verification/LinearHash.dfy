/** The incremental linear-hash tables of the high-level API (`struct node_table`).

    A table keeps `size` buckets, of which the first `size/2` are addressed by the old hash
    (modulo `size/2`) until `split` has passed them; bucket `b < split` has been split into
    `b` and `b + size/2`. The table grows and shrinks one bucket at a time. The id table and
    the (parent, name) table are the same code over different keys, so the class is generic
    in its key and is given the full-width hash of a key. */
module LinearHash {
  import opened Prelude

  const MIN_SIZE: nat := 8192
  /** How many buckets one removal may try to merge back. */
  const MERGE_TRIES: nat := 8

  /** The sizes a table can have: the initial size doubled any number of times. */
  predicate TableSize(n: nat) {
    n == MIN_SIZE || (n > MIN_SIZE && n % 2 == 0 && TableSize(n / 2))
  }

  lemma DoubledSize(n: nat)
    requires TableSize(n)
    ensures TableSize(2 * n)
  {
    assert (2 * n) / 2 == n;
  }

  lemma SizeFacts(n: nat)
    requires TableSize(n)
    ensures n >= MIN_SIZE && n % 2 == 0 && n / 2 > 0
    ensures n / 2 >= MIN_SIZE ==> TableSize(n / 2) && (n / 2) % 2 == 0
  {
  }

  /** Where a full-width hash goes in a table of the given size and split. */
  function Bucket(h: nat, size: nat, split: nat): (b: nat)
    requires size >= 2
  {
    var hash := h % size;
    var oldhash := hash % (size / 2);
    if oldhash >= split then oldhash else hash
  }

  /** The remainder modulo an even size and modulo its half: they agree, or differ by the half. */
  lemma HalfRemainder(h: nat, size: nat)
    requires size >= 2 && size % 2 == 0
    ensures (h % size) % (size / 2) == h % (size / 2)
    ensures h % size == h % (size / 2) || h % size == h % (size / 2) + size / 2
  {
    var half := size / 2;
    var r := h % size;
    if r >= half {
      RemainderIs(r, half, 1, r - half);
      RemainderIs(h, half, 2 * (h / size) + 1, r - half);
    } else {
      RemainderIs(r, half, 0, r);
      RemainderIs(h, half, 2 * (h / size), r);
    }
  }

  /** Buckets at and above `size/2 + split` are never addressed. */
  lemma BucketRange(h: nat, size: nat, split: nat)
    requires size >= 2 && size % 2 == 0 && split <= size / 2
    ensures Bucket(h, size, split) < size / 2 + split
  {
    HalfRemainder(h, size);
  }

  /** Advancing the split by one moves nothing but the keys of that one bucket, and those go to
      it or to its image in the upper half. */
  lemma SplitStep(h: nat, size: nat, split: nat)
    requires size >= 2 && size % 2 == 0 && split < size / 2
    ensures Bucket(h, size, split) != split ==> Bucket(h, size, split + 1) == Bucket(h, size, split)
    ensures Bucket(h, size, split) == split ==> Bucket(h, size, split + 1) in {split, split + size / 2}
    ensures Bucket(h, size, split + 1) == split + size / 2 ==> Bucket(h, size, split) == split
    ensures Bucket(h, size, split + 1) == split ==> Bucket(h, size, split) == split
  {
    HalfRemainder(h, size);
  }

  /** A fully split table addresses its buckets exactly as the unsplit table of twice the size. */
  lemma DoublingKeeps(h: nat, size: nat)
    requires size >= 2 && size % 2 == 0
    ensures Bucket(h, size, size / 2) == Bucket(h, 2 * size, 0)
  {
    HalfRemainder(h, size);
    HalfRemainder(h, 2 * size);
    assert (2 * size) / 2 == size;
  }

  /** The addressing in force for a size and split: the bucket of each key. */
  function Addressing<K>(hash: K -> nat, size: nat, split: nat): K -> nat
    requires size >= 2
  {
    k => Bucket(hash(k), size, split)
  }

  /** Undoing a split sends the keys of the upper bucket back to the lower one and no others. */
  lemma MergedAddress<K(!new)>(hash: K -> nat, size: nat, lo: nat)
    requires size >= 2 && size % 2 == 0 && lo < size / 2
    ensures forall k ::
              Addressing(hash, size, lo)(k) ==
              if Addressing(hash, size, lo + 1)(k) == lo + size / 2 then lo else Addressing(hash, size, lo + 1)(k)
  {
    forall k: K
      ensures Addressing(hash, size, lo)(k) ==
              if Addressing(hash, size, lo + 1)(k) == lo + size / 2 then lo else Addressing(hash, size, lo + 1)(k)
    {
      SplitStep(hash(k), size, lo);
      BucketRange(hash(k), size, lo);
    }
  }

  datatype Entry<K, V> = Entry(key: K, node: V)

  ghost predicate NoDup<K, V>(chain: seq<Entry<K, V>>) {
    forall a, b :: 0 <= a < b < |chain| ==> chain[a].key != chain[b].key
  }

  /** Every entry of the first `size` buckets is in the bucket its key is addressed to, and the
      entries, each held once, are exactly the bindings of the map `m`. */
  ghost predicate Placed<K(!new), V(!new)>(at: K -> nat, bs: seq<seq<Entry<K, V>>>, size: nat, m: map<K, V>)
    requires |bs| >= size
  {
    && (forall i, e :: 0 <= i < size && e in bs[i] ==> at(e.key) == i && e.key in m && m[e.key] == e.node)
    && (forall k :: k in m ==> at(k) < size && Entry(k, m[k]) in bs[at(k)])
    && (forall i :: 0 <= i < size ==> NoDup(bs[i]))
  }

  /** Only the addresses of existing keys and the first `size` buckets matter. */
  lemma {:induction false} PlacedCopy<K(!new), V(!new)>(
      at: K -> nat, at': K -> nat, bs: seq<seq<Entry<K, V>>>, bs': seq<seq<Entry<K, V>>>,
      size: nat, size': nat, m: map<K, V>)
    requires |bs| >= size && |bs'| >= size' && Placed(at, bs, size, m)
    requires forall k :: k in m ==> at'(k) == at(k) && at(k) < size'
    requires forall i :: 0 <= i < size' ==> bs'[i] == if i < size then bs[i] else []
    ensures Placed(at', bs', size', m)
  {
    forall i, e | 0 <= i < size' && e in bs'[i]
      ensures at'(e.key) == i && e.key in m && m[e.key] == e.node
    {
      assert i < size && e in bs[i];
    }
    forall k | k in m ensures Entry(k, m[k]) in bs'[at'(k)] {
      assert bs'[at'(k)] == bs[at(k)];
    }
    forall i | 0 <= i < size' ensures NoDup(bs'[i]) {
      assert i < size ==> bs'[i] == bs[i] && NoDup(bs[i]);
    }
  }

  lemma {:induction false} PlacedInsert<K(!new), V(!new)>(
      at: K -> nat, bs: seq<seq<Entry<K, V>>>, size: nat, m: map<K, V>, k: K, v: V)
    requires |bs| >= size && Placed(at, bs, size, m) && k !in m && at(k) < size
    ensures Placed(at, bs[at(k) := [Entry(k, v)] + bs[at(k)]], size, m[k := v])
  {
    var h := at(k);
    var bs' := bs[h := [Entry(k, v)] + bs[h]];
    forall e | e in bs[h] ensures e.key != k {
    }
    assert NoDup(bs'[h]) by {
      forall b | 0 <= b < |bs[h]| ensures bs[h][b].key != k {
        assert bs[h][b] in bs[h];
      }
    }
  }

  lemma {:induction false} CutChain<K, V>(chain: seq<Entry<K, V>>, pos: nat)
    requires pos < |chain| && NoDup(chain)
    ensures var rest := chain[..pos] + chain[pos + 1..];
            && NoDup(rest)
            && (forall e :: e in rest <==> e in chain && e.key != chain[pos].key)
  {
    var rest := chain[..pos] + chain[pos + 1..];
    forall e | e in rest ensures e in chain && e.key != chain[pos].key {
      var a :| 0 <= a < |rest| && rest[a] == e;
      assert e == chain[if a < pos then a else a + 1];
    }
    forall e | e in chain && e.key != chain[pos].key ensures e in rest {
      var a :| 0 <= a < |chain| && chain[a] == e;
      assert e == rest[if a < pos then a else a - 1];
    }
  }

  lemma {:induction false} PlacedCut<K(!new), V(!new)>(
      at: K -> nat, bs: seq<seq<Entry<K, V>>>, size: nat, m: map<K, V>, h: nat, pos: nat)
    requires |bs| >= size && Placed(at, bs, size, m) && h < size && pos < |bs[h]|
    ensures Placed(at, bs[h := bs[h][..pos] + bs[h][pos + 1..]], size, m - {bs[h][pos].key})
  {
    var gone := bs[h][pos];
    assert gone in bs[h];
    CutChain(bs[h], pos);
  }

  /** Chains `lo` and `hi` together hold the entries of `chain`, each key once. */
  ghost predicate Shared<K(!new), V(!new)>(lo: seq<Entry<K, V>>, hi: seq<Entry<K, V>>, chain: seq<Entry<K, V>>) {
    && NoDup(lo) && NoDup(hi)
    && (forall e :: e in lo || e in hi <==> e in chain)
    && (forall e, d :: e in lo && d in hi ==> e.key != d.key)
  }

  /** Moving the entry at `pos` of one chain to the head of the other keeps them a sharing. */
  lemma {:induction false} MoveShared<K(!new), V(!new)>(
      lo: seq<Entry<K, V>>, hi: seq<Entry<K, V>>, chain: seq<Entry<K, V>>, pos: nat)
    requires Shared(lo, hi, chain) && pos < |lo|
    ensures Shared(lo[..pos] + lo[pos + 1..], [lo[pos]] + hi, chain)
  {
    CutChain(lo, pos);
    assert lo[pos] in lo;
    forall b | 0 <= b < |hi| ensures hi[b].key != lo[pos].key {
      assert hi[b] in hi;
    }
    forall e ensures e in lo[..pos] + lo[pos + 1..] || e in [lo[pos]] + hi <==> e in chain {
      if e in lo && e.key == lo[pos].key {
        var a :| 0 <= a < |lo| && lo[a] == e;
        assert a == pos;
      }
    }
  }

  /** One bucket's chain redistributed over that bucket and an empty one, each entry where the
      new addressing wants it. */
  lemma {:induction false} PlacedSplit<K(!new), V(!new)>(
      at: K -> nat, at': K -> nat, bs: seq<seq<Entry<K, V>>>, bs': seq<seq<Entry<K, V>>>,
      size: nat, m: map<K, V>, h: nat, hi: nat)
    requires |bs| >= size && |bs'| >= size && Placed(at, bs, size, m)
    requires h < hi < size && bs[hi] == []
    requires forall i :: 0 <= i < size && i != h && i != hi ==> bs'[i] == bs[i]
    requires Shared(bs'[h], bs'[hi], bs[h])
    requires forall e :: e in bs'[h] ==> at'(e.key) == h
    requires forall e :: e in bs'[hi] ==> at'(e.key) == hi
    requires forall k :: at(k) != h ==> at'(k) == at(k)
    ensures Placed(at', bs', size, m)
  {
    forall k | k in m ensures at'(k) < size && Entry(k, m[k]) in bs'[at'(k)] {
      var e := Entry(k, m[k]);
      assert e in bs[at(k)];
      if at(k) == h {
        assert e in bs'[h] || e in bs'[hi];
      }
    }
  }

  /** The chain of an upper bucket appended to the chain of the lower one. */
  lemma {:induction false} PlacedMerge<K(!new), V(!new)>(at: K -> nat, at': K -> nat, bs: seq<seq<Entry<K, V>>>,
      bs': seq<seq<Entry<K, V>>>, size: nat, m: map<K, V>, h: nat, hi: nat)
    requires |bs| >= size && Placed(at, bs, size, m) && h < hi < size
    requires forall k :: at'(k) == if at(k) == hi then h else at(k)
    requires bs' == bs[h := bs[h] + bs[hi]][hi := []]
    ensures Placed(at', bs', size, m)
  {
    assert NoDup(bs'[h]) by {
      forall a, b | 0 <= a < |bs[h]| && 0 <= b < |bs[hi]| ensures bs[h][a].key != bs[hi][b].key {
        assert bs[h][a] in bs[h] && bs[hi][b] in bs[hi];
      }
    }
    forall k | k in m ensures Entry(k, m[k]) in bs'[at'(k)] {
      assert Entry(k, m[k]) in bs[at(k)];
    }
  }

  /** The keys of a chain without duplicates are as many as its entries. */
  lemma {:induction false} KeysOfChain<K, V>(chain: seq<Entry<K, V>>)
    requires NoDup(chain)
    ensures |set e | e in chain :: e.key| == |chain|
    decreases |chain|
  {
    if chain != [] {
      var init, last := chain[..|chain| - 1], chain[|chain| - 1];
      KeysOfChain(init);
      var keys := set e | e in init :: e.key;
      forall e | e in init ensures e.key != last.key {
        var a :| 0 <= a < |init| && init[a] == e;
        assert chain[a] == e;
      }
      assert chain == init + [last];
      assert (set e | e in chain :: e.key) == keys + {last.key};
    }
  }

  /** Number of entries in the first `n` chains. */
  ghost function ChainTotal<K, V>(bs: seq<seq<Entry<K, V>>>, n: nat): nat
    requires n <= |bs|
  {
    if n == 0 then 0 else ChainTotal(bs, n - 1) + |bs[n - 1]|
  }

  /** The chains together hold as many entries as the map has bindings, so at rest `use` is the
      chain total. */
  lemma {:induction false} TotalIsSize<K(!new), V(!new)>(
      at: K -> nat, bs: seq<seq<Entry<K, V>>>, size: nat, m: map<K, V>)
    requires |bs| >= size && Placed(at, bs, size, m)
    ensures ChainTotal(bs, size) == |m|
  {
    TotalBelow(at, bs, size, m, size);
    assert (set k | k in m && at(k) < size) == m.Keys;
  }

  lemma {:induction false} TotalBelow<K(!new), V(!new)>(
      at: K -> nat, bs: seq<seq<Entry<K, V>>>, size: nat, m: map<K, V>, n: nat)
    requires |bs| >= size && Placed(at, bs, size, m) && n <= size
    ensures ChainTotal(bs, n) == |set k | k in m && at(k) < n|
  {
    if n > 0 {
      TotalBelow(at, bs, size, m, n - 1);
      assert |bs[n - 1]| == |set k | k in m && at(k) == n - 1| by {
        KeysOfChain(bs[n - 1]);
        KeysHere(at, bs, size, m, n - 1);
      }
      CountStep(at, m, n);
    }
  }

  lemma CountStep<K(!new), V(!new)>(at: K -> nat, m: map<K, V>, n: nat)
    requires n > 0
    ensures |set k | k in m && at(k) < n| == |set k | k in m && at(k) < n - 1| + |set k | k in m && at(k) == n - 1|
  {
    var here := set k | k in m && at(k) == n - 1;
    var below := set k | k in m && at(k) < n - 1;
    assert (set k | k in m && at(k) < n) == below + here;
  }

  lemma {:induction false} KeysHere<K(!new), V(!new)>(
      at: K -> nat, bs: seq<seq<Entry<K, V>>>, size: nat, m: map<K, V>, i: nat)
    requires |bs| >= size && Placed(at, bs, size, m) && i < size
    ensures (set e | e in bs[i] :: e.key) == (set k | k in m && at(k) == i)
  {
    forall k | k in m && at(k) == i ensures k in (set e | e in bs[i] :: e.key) {
      assert Entry(k, m[k]) in bs[i];
    }
  }

  /** Buckets from `size/2 + split` up are empty. */
  lemma EmptyTail<K(!new), V(!new)>(
      hash: K -> nat, bs: seq<seq<Entry<K, V>>>, size: nat, split: nat, m: map<K, V>, i: nat)
    requires size >= 2 && size % 2 == 0 && split <= size / 2 && |bs| >= size
    requires Placed(Addressing(hash, size, split), bs, size, m)
    requires size / 2 + split <= i < size
    ensures bs[i] == []
  {
    if bs[i] != [] {
      assert bs[i][0] in bs[i];
      BucketRange(hash(bs[i][0].key), size, split);
    }
  }

  class NodeTable<K(==, !new), V(==, !new)> {
    const hash: K -> nat
    var buckets: seq<seq<Entry<K, V>>>
    var use: nat
    var size: nat
    var split: nat
    /** The finite map that the table stands for. */
    ghost var contents: map<K, V>

    ghost predicate Shape()
      reads this
    {
      TableSize(size) && size >= 2 && size % 2 == 0 && split <= size / 2 && |buckets| >= size
    }

    ghost predicate Consistent()
      reads this
    {
      Shape() && Placed(Addressing(hash, size, split), buckets, size, contents)
    }

    /** Layout, placement and the count; `pending` entries have left their chain and not yet
        been taken off `use` (see `Unlink`). */
    ghost predicate ValidWith(pending: nat)
      reads this
    {
      Consistent() && use == |contents| + pending
    }

    ghost predicate Valid()
      reads this
    {
      ValidWith(0)
    }

    /** The number of buckets in use. */
    function Active(): nat
      reads this
    {
      size / 2 + split
    }

    /** The table can grow, and has a bucket for every entry. */
    predicate Roomy()
      reads this
    {
      split < size / 2 && use <= Active()
    }

    constructor (h: K -> nat)
      ensures Valid() && contents == map[] && hash == h && Roomy() && size == MIN_SIZE && split == 0
    {
      hash := h;
      size := MIN_SIZE;
      buckets := seq(MIN_SIZE, i => []);
      use := 0;
      split := 0;
      contents := map[];
    }

    /** `get_node_nocheck` and `lookup_node`: walk the chain of the key's bucket. */
    method Lookup(k: K) returns (r: Option<V>)
      requires Consistent()
      ensures r == if k in contents then Some(contents[k]) else None
    {
      BucketRange(hash(k), size, split);
      var chain := buckets[Bucket(hash(k), size, split)];
      assert chain == buckets[Addressing(hash, size, split)(k)];
      var pos := 0;
      while pos < |chain|
        invariant 0 <= pos <= |chain|
        invariant forall a :: 0 <= a < pos ==> chain[a].key != k
      {
        if chain[pos].key == k {
          assert chain[pos] in buckets[Addressing(hash, size, split)(k)];
          return Some(chain[pos].node);
        }
        pos := pos + 1;
      }
      assert k !in contents;
      return None;
    }

    /** `node_table_resize`: double the array and start splitting again. */
    method Resize(reallocOk: bool)
      requires Consistent() && split == size / 2
      modifies this
      ensures Consistent() && contents == old(contents) && use == old(use)
      ensures size == (if reallocOk then 2 * old(size) else old(size))
      ensures split == (if reallocOk then 0 else old(split))
    {
      if !reallocOk { return; }
      ghost var at, before := Addressing(hash, size, split), buckets;
      forall k: K
        ensures at(k) == Bucket(hash(k), 2 * size, 0) && at(k) < 2 * size
      {
        DoublingKeeps(hash(k), size);
        BucketRange(hash(k), size, split);
      }
      DoubledSize(size);
      buckets := buckets[..size] + seq(size, i => []);
      size := size * 2;
      split := 0;
      PlacedCopy(at, Addressing(hash, size, split), before, buckets, old(size), size, contents);
    }

    /** `rehash_id`, `rehash_name`: split the next bucket, moving entries one by one. One more bucket is in use
        afterwards, unless a failed realloc has left the table fully split: then nothing happens. */
    method Rehash(reallocOk: bool)
      requires Consistent()
      modifies this
      ensures Consistent() && contents == old(contents) && use == old(use)
      ensures old(split) == old(size) / 2 ==> size == old(size) && split == old(split)
      ensures old(split) < old(size) / 2 ==> Active() == old(Active()) + 1
      ensures old(split) < old(size) / 2 ==> (split == size / 2 <==> !reallocOk && old(split) + 1 == old(size) / 2)
    {
      if split == size / 2 { return; }
      SplitNext();
      if split == size / 2 {
        Resize(reallocOk);
      }
    }

    /** Advance the split by one bucket. */
    method SplitNext()
      requires Consistent() && split < size / 2
      modifies this
      ensures Consistent() && contents == old(contents) && use == old(use)
      ensures size == old(size) && split == old(split) + 1
    {
      var h, hi := split, split + size / 2;
      ghost var at, before := Addressing(hash, size, split), buckets;
      EmptyTail(hash, buckets, size, split, contents, hi);
      split := split + 1;
      forall k: K
        ensures at(k) != h ==> Addressing(hash, size, split)(k) == at(k)
        ensures at(k) == h ==> Addressing(hash, size, split)(k) == h || Addressing(hash, size, split)(k) == hi
      {
        SplitStep(hash(k), size, h);
      }
      Distribute(Addressing(hash, size, split), h, hi);
      PlacedSplit(at, Addressing(hash, size, split), before, buckets, size, contents, h, hi);
    }

    /** The moving loop of `rehash_id` and `rehash_name`: each node of the chain that the new
        addressing sends elsewhere is cut out and put at the head of the other chain. */
    method Distribute(at: K -> nat, h: nat, hi: nat)
      requires h < hi < |buckets| && buckets[hi] == [] && NoDup(buckets[h])
      requires forall e :: e in buckets[h] ==> at(e.key) == h || at(e.key) == hi
      modifies this`buckets
      ensures |buckets| == |old(buckets)|
      ensures forall i :: 0 <= i < |buckets| && i != h && i != hi ==> buckets[i] == old(buckets[i])
      ensures Shared(buckets[h], buckets[hi], old(buckets[h]))
      ensures forall e :: e in buckets[h] ==> at(e.key) == h
      ensures forall e :: e in buckets[hi] ==> at(e.key) == hi
    {
      ghost var before := buckets;
      var pos := 0;
      while pos < |buckets[h]|
        invariant |buckets| == |before| && 0 <= pos <= |buckets[h]|
        invariant forall i :: 0 <= i < |buckets| && i != h && i != hi ==> buckets[i] == before[i]
        invariant Shared(buckets[h], buckets[hi], before[h])
        invariant forall a :: 0 <= a < pos ==> at(buckets[h][a].key) == h
        invariant forall e :: e in buckets[hi] ==> at(e.key) == hi
        decreases |buckets[h]| - pos
      {
        var node := buckets[h][pos];
        var newhash := at(node.key);
        assert node in before[h];
        if newhash != h {
          MoveShared(buckets[h], buckets[hi], before[h], pos);
          buckets := buckets[h := buckets[h][..pos] + buckets[h][pos + 1..]][newhash := [node] + buckets[newhash]];
        } else {
          pos := pos + 1;
        }
      }
    }

    /** `hash_id`, and the chain part of `hash_name`. There is a bucket for every entry as long as no realloc has
        failed; a table that a failed realloc has left fully split takes the entry and does not grow. */
    method Insert(k: K, v: V, reallocOk: bool, ghost pending: nat)
      requires ValidWith(pending) && k !in contents
      modifies this
      ensures ValidWith(pending) && contents == old(contents)[k := v]
      ensures old(use + 1 < size / 2) ==> size == old(size) && split == old(split)
      ensures old(use + 1 >= size / 2 && split < size / 2) ==> Active() == old(Active()) + 1
      ensures old(Roomy()) ==> use <= Active()
      ensures old(Roomy()) ==> (Roomy() <==> reallocOk || old(use + 1 < size / 2) || old(split + 1 < size / 2))
      ensures old(split) == old(size) / 2 ==> size == old(size) && split == old(split)
    {
      BucketRange(hash(k), size, split);
      PlacedInsert(Addressing(hash, size, split), buckets, size, contents, k, v);
      var h := Bucket(hash(k), size, split);
      buckets := buckets[h := [Entry(k, v)] + buckets[h]];
      use := use + 1;
      contents := contents[k := v];
      if use >= size / 2 {
        Rehash(reallocOk);
      }
    }

    /** The search-and-unlink loop of `unhash_id` and `unhash_name`; `use` is not yet touched. */
    method Unlink(k: K, v: V, ghost pending: nat) returns (found: bool)
      requires ValidWith(pending)
      modifies this
      ensures found <==> k in old(contents) && old(contents)[k] == v
      ensures size == old(size) && split == old(split)
      ensures found ==> ValidWith(pending + 1) && contents == old(contents) - {k}
      ensures !found ==> ValidWith(pending) && contents == old(contents)
    {
      BucketRange(hash(k), size, split);
      var at := Addressing(hash, size, split);
      var h := at(k);
      assert k in contents ==> Entry(k, contents[k]) in buckets[h];
      var pos := Position(buckets[h], Entry(k, v));
      found := pos < |buckets[h]|;
      if found {
        assert buckets[h][pos] in buckets[h];
        Cut(h, pos);
        RemoveOne(contents.Keys, old(contents).Keys, k);
      }
    }

    /** Take one entry out of its chain. */
    method Cut(h: nat, pos: nat)
      requires Consistent() && h < size && pos < |buckets[h]|
      modifies this
      ensures Consistent() && use == old(use) && contents == old(contents - {buckets[h][pos].key})
      ensures size == old(size) && split == old(split)
    {
      PlacedCut(Addressing(hash, size, split), buckets, size, contents, h, pos);
      contents := contents - {buckets[h][pos].key};
      buckets := buckets[h := buckets[h][..pos] + buckets[h][pos + 1..]];
    }

    /** The search part: the first place of the entry in the chain, or the end of the chain. */
    static method Position(chain: seq<Entry<K, V>>, e: Entry<K, V>) returns (pos: nat)
      ensures pos <= |chain| && e !in chain[..pos]
      ensures pos < |chain| ==> chain[pos] == e
    {
      pos := 0;
      while pos < |chain| && chain[pos] != e
        invariant pos <= |chain| && e !in chain[..pos]
      {
        pos := pos + 1;
      }
    }

    /** What `unhash_id` and `unhash_name` do after the unlink: count, and merge when sparse. */
    method Account(reallocOk: bool, ghost pending: nat)
      requires ValidWith(pending + 1)
      modifies this
      ensures ValidWith(pending) && contents == old(contents)
      ensures old(use) <= old(Active()) ==> use <= Active()
      ensures split < size / 2 <==> old(split) < old(size) / 2 || old(use - 1 < size / 4)
      ensures old(use - 1 >= size / 4) ==> size == old(size) && split == old(split)
      ensures old(use - 1 < size / 4) ==> Active() < old(Active()) || split == 0
    {
      use := use - 1;
      if use < size / 4 {
        Remerge(reallocOk);
      }
    }

    /** `node_table_reduce`. A failed shrink keeps the longer array and the smaller size. */
    method Reduce(reallocOk: bool)
      requires Consistent() && split == 0
      modifies this
      ensures Consistent() && contents == old(contents) && use == old(use)
      ensures if old(size) / 2 < MIN_SIZE then size == old(size) && split == 0
              else size == old(size) / 2 && split == size / 2
      ensures Active() == old(Active()) <= |buckets|
      ensures forall i :: 0 <= i < Active() ==> buckets[i] == old(buckets)[i]
    {
      var newsize := size / 2;
      if newsize < MIN_SIZE { return; }
      SizeFacts(size);
      ghost var at, before := Addressing(hash, size, split), buckets;
      forall k: K
        ensures at(k) == Bucket(hash(k), newsize, newsize / 2) && at(k) < newsize
      {
        DoublingKeeps(hash(k), newsize);
        BucketRange(hash(k), size, 0);
      }
      if reallocOk {
        buckets := buckets[..newsize];
      }
      size := newsize;
      split := size / 2;
      PlacedCopy(at, Addressing(hash, size, split), before, buckets, old(size), size, contents);
    }

    /** `remerge_id`, `remerge_name`: undo up to eight splits, stopping after the first that
        had entries to bring back. A fully split table can grow again afterwards. The buckets taken out of use were
        empty, but for the last one, and it stops only for that one, at the eighth or at the start. */
    method Remerge(reallocOk: bool)
      requires Consistent()
      modifies this
      ensures Consistent() && contents == old(contents) && use == old(use)
      ensures split < size / 2 && size / 2 >= old(size) / 4
      ensures old(Active()) - MERGE_TRIES <= Active() <= old(Active()) <= |old(buckets)|
      ensures forall i :: Active() < i < old(Active()) ==> old(buckets)[i] == []
      ensures || Active() == old(Active()) - MERGE_TRIES || split == 0
              || (Active() < old(Active()) && old(buckets)[Active()] != [])
    {
      hide Placed, TableSize;
      assert Active() <= |buckets|;
      if split == 0 {
        Reduce(reallocOk);
      }
      var iter := MERGE_TRIES;
      while split > 0 && iter > 0
        invariant Consistent() && contents == old(contents) && use == old(use) && size / 2 >= old(size) / 4
        invariant iter == MERGE_TRIES || split < size / 2
        invariant 0 <= iter <= MERGE_TRIES && Active() == old(Active()) - (MERGE_TRIES - iter)
        invariant Active() <= |buckets| && forall i :: 0 <= i < Active() ==> buckets[i] == old(buckets)[i]
        invariant forall i :: Active() <= i < old(Active()) ==> old(buckets)[i] == []
        decreases iter
      {
        ghost var upper := Active() - 1;
        var moved := MergeOne();
        assert Active() == upper;
        if moved { break; }
        iter := iter - 1;
      }
    }

    /** One turn of the merge loop. */
    method MergeOne() returns (moved: bool)
      requires Consistent() && split > 0
      modifies this
      ensures Consistent() && contents == old(contents) && use == old(use)
      ensures split == old(split) - 1 && size == old(size)
      ensures moved <==> old(buckets[split - 1 + size / 2] != [])
      ensures !moved ==> buckets == old(buckets)
    {
      var lo, upper := split - 1, split - 1 + size / 2;
      MergedAddress(hash, size, lo);
      ghost var merged := buckets[lo := buckets[lo] + buckets[upper]][upper := []];
      PlacedMerge(Addressing(hash, size, split), Addressing(hash, size, lo), buckets, merged, size, contents, lo,
          upper);
      split := lo;
      moved := buckets[upper] != [];
      if moved {
        buckets := buckets[lo := buckets[lo] + buckets[upper]][upper := []];
      }
      assert moved || buckets[lo] + buckets[upper] == buckets[lo];
      assert buckets == merged;
    }
  }
}
