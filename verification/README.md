# libfuse, modelled and proved

This project models the stateful core of libfuse and proves what that core is meant to guarantee. Each
module follows one component of `lib/`:

| module | component |
|---|---|
| `LinearHash` | the incremental hash tables: split and merge one bucket at a time, double, halve |
| `NodeTree`, `TreeOps` | the reference-counted node tree and its operations, as functions on the live nodes |
| `NodeCache` | `struct fuse`: both hash tables, the nodes, the id counter and the path-lock loops, as a class |
| `TreeLocks` | the `treelock` word: what one or two path attempts do to it, and which holds it encodes |
| `LockCore`, `LockTree`, `LockProtocol`, `LockSteps`, `LockRuns`, `LockTheorems` | path locking under concurrency: every critical section under `f->lock` is one step, in any interleaving |
| `LockLedger` | what every run adds up to: lookups and forgets of each node, and what became of each operation |
| `LockWitnesses` | runs that show what the locking theorems do and do not cover |
| `ByteLocks` | the POSIX byte-range lock list |
| `Interrupts` | requests, interrupts and callbacks of the low-level session, as steps of threads |
| `BufCopy` | the two-cursor copy between buffer vectors |
| `OptionCodec` | escaping an option list and decoding it in place |
| `PathText` | printing a path backwards and resolving it forwards |
| `Slab` | the slab allocator of the nodes |
| `Readdir` | directory records and paging |
| `WorkerPool` | the accounting of the multi-threaded loop |

`Prelude` holds an option type, the limits of `int` and facts about finite sets.
`dafny verify dfyconfig.toml` checks everything.

## How to read it

The code that changes state is modelled as classes and loops, and each method's `ensures` ties the new
state to a function of the old one (`nodes == Unref(old(nodes), id)`) or says outright what it means
(`Inserted(old(locks), lock, locks)`). What the functions guarantee is proved beside them: for example
`UnrefCollects` says that the deletion cascade keeps exactly the nodes that somebody still refers to.

The concurrent parts are state machines. `Enabled` says when a step may be taken, `Next` what it does,
`Inv` what every step keeps, and `Reachable` or `RunFrom` quantifies over all runs of any length.

For path locking the guarantees of the kernel are preconditions of steps (`LockSteps.Enabled`): requests
name directories with a positive lookup count; while an unlink or rename of a name is in progress no other
unlink or rename of that name is, and no node appears under it; a node that a waiting request works on is
not forgotten for good; the two names of an exchange differ. The number of concurrent operations is
bounded (`MAX_OPS`) so that a reader count fits the lock word; nothing else is bounded. That a rename does
not go into the node's own subtree is *not* assumed: `NoRenameIntoOwnSubtree` proves it from the locks.

Memory and thread creation may fail anywhere the code asks for them: such outcomes are parameters
(`memory`, `copied`, `reallocOk`, `oom`, `started`) that every theorem quantifies over.

Five places differ from the code in a way nothing can observe under `f->lock`. Nodes live in a map keyed
by id instead of behind pointers, and each has a cell of a slab; a node's record is dropped before its id is
unhashed; a new node enters the id table before the name table; the wait loop of `forget_node` is the condition
for its step; the root, which has the name "/" in the code, has none here, since every loop stops at its id.

## What came out of it

- A failed `realloc` when the last bucket has been split leaves the table at its size, and `rehash_id`
  returns at once from then on: the table grows again only after a merge has lowered `split`. The
  map it stands for is right all the same. `NodeTable.Insert` states when a table keeps a bucket for every
  entry, and that a fully split one does not grow; `NodeTable.Account` that a merge ends this.
- No reader joins once a writer waits: a waiting request closes the last node of its path to everybody, and a
  request for two paths closes at least one of its two, unless the paths are in each other's way
  (`NoReaderJoins`). It need not close both: a rename that waits for a reader of its first node leaves the node
  at its second name open (`ReaderJoinsTwoPathWaiter`). `ClosedExactly` says when a node is closed.
- Two paths that are in each other's way, the node one is to write being one the other has to lock, are never
  granted together, and as long as they are so the request waits (`CrossedFails`, `LastReleaseWakesAll`).
- `rename_node` makes a circle if and only if the target directory lies below the node (`RenameTree`), and
  under both path locks it never does (`NoRenameIntoOwnSubtree`).
- A FORGET never starts a thread, but a BATCH_FORGET may: one that came by splice and is too large to be taken
  out of the pipe is not recognised as a forget (`ForgetStarts`, `SplicedBatchStarts`).
- An option list whose first option is empty loses that option when others follow, because a comma is
  written only after a non-empty list. `RoundTrip` states exactly when nothing is lost.
- With `max_idle` 0 (or below -1) the pool can be left without any thread to read the next request though
  its limit is not reached. `NeverStarves` states exactly when that cannot happen.
- A page of a directory listing that is too small for the next entry comes back empty, which readers take
  for the end (`SmallPageEndsEarly`).

## Model

| member | source | states |
|---|---|---|
| LinearHash.SplitStep | lib/fuse.c:648-675 | advancing `split` by one changes the address of no key but those in the bucket that splits, and sends those to it or to its twin half a table up |
| LinearHash.DoublingKeeps | lib/fuse.c:631-646 | a fully split table of size n and an unsplit one of size 2n give every hash the same bucket |
| LinearHash.MergedAddress | lib/fuse.c:590-614 | taking one split back sends exactly the keys of the upper twin to the lower bucket |
| LinearHash.EmptyTail | lib/fuse.c:513-522 | the buckets from size/2+split up are empty |
| LinearHash.TotalIsSize | lib/fuse.c:513-703 | the chain lengths add up to the number of entries of the map |
| LinearHash.NodeTable.constructor | lib/fuse.c:4876-4889 | a new table stands for the empty map |
| LinearHash.NodeTable.Lookup | lib/fuse.c:524-534 | returns exactly the value bound to the key in the finite map, or none |
| LinearHash.NodeTable.Insert | lib/fuse.c:677-686 | the map gains exactly this binding, through any split, doubling or failed realloc; a bucket is split exactly when the table is half full and not fully split; a table that can grow and has a bucket for every entry stays so if and only if this is not the last split with a failed realloc; a fully split table does not grow |
| LinearHash.NodeTable.Unlink | lib/fuse.c:616-629 | finds the entry if and only if the map has it, and removes exactly it |
| LinearHash.NodeTable.Account | lib/fuse.c:616-629 | lowering `use` leaves the map as it was and a bucket for every entry; buckets are merged exactly when the table is less than a quarter full; a fully split table can grow again if and only if it merged |
| LinearHash.NodeTable.Resize | lib/fuse.c:631-646 | doubling keeps the map; a failed realloc keeps everything |
| LinearHash.NodeTable.Rehash | lib/fuse.c:648-675 | exactly one more bucket is in use and the map is kept; a fully split table is left alone; it becomes fully split exactly when the last split meets a failed realloc |
| LinearHash.NodeTable.Distribute | lib/fuse.c:648-675 | the moving loop shares the chain out: every entry is in exactly one of the two chains, the one its new address names |
| LinearHash.NodeTable.Reduce | lib/fuse.c:574-588 | halving keeps the map and turns an unsplit table into a fully split one; the smallest size is kept |
| LinearHash.NodeTable.Remerge | lib/fuse.c:590-614 | at most eight merges keep the map and leave a table that can grow; all merged buckets were empty but the last, and merging stops only for a bucket that was not, at the eighth or when nothing is split |
| NodeTree.UnrefCorrect | lib/fuse.c:816-836 | the mutually recursive delete cascade ends in a well-formed tree with exact counts, in which survivors changed in nothing but their count and only unreferenced nodes without surviving children are gone |
| NodeTree.UnrefCollects | lib/fuse.c:816-836 | a node survives the cascade if and only if it, or a descendant of it, is looked up or temporarily referred to |
| NodeTree.AllNeeded | lib/fuse.c:830-836 | where all counts are exact, every live node is referred to, itself or through a descendant |
| TreeOps.DetachCorrect | lib/fuse.c:733-759 | taking a name away keeps the tree and all counts; which chains get shorter and where they end |
| TreeOps.DetachCollects | lib/fuse.c:733-759 | taking a name away frees exactly what nobody refers to any longer |
| TreeOps.AttachCorrect | lib/fuse.c:790-814 | binding a nameless node below a parent that is not below it keeps the tree and the counts; which chains get longer |
| TreeOps.CreateCorrect | lib/fuse.c:870-907 | a new node is bound to its name with one lookup and its generation, keeps the tree and the counts, and changes no other record but the parent's count |
| TreeOps.IncLookupCorrect | lib/fuse.c:863-868 | `nlookup` of this node grows by one and nothing else changes, but that `refctr` stays equal to one for lookups, one per named child and one per temporary reference |
| TreeOps.ForgetCorrect | lib/fuse.c:1364-1400 | a forget of 1 up to nlookup takes exactly its number off the node's lookups and none off any other, keeps the tree and the counts, and never removes the root |
| TreeOps.ForgetCollects | lib/fuse.c:1364-1400 | what stays after a forget is exactly what is still referred to, directly or through a descendant |
| LockLedger.StepLookups | lib/fuse.c:863-907 | every step, of whatever kind, changes the lookups of every node by exactly what it looks up or forgets |
| LockLedger.LookupsBalance | lib/fuse.c:863-1400 | over every run `nlookup` is the number of lookups less the counts forgotten, and the node has its lookup reference exactly while that is positive |
| TreeOps.DotRefCorrect | lib/fuse.c:2653-2686 | the temporary reference of a lookup of "." is counted |
| TreeOps.DotUnrefCorrect | lib/fuse.c:2701-2706 | dropping it keeps the tree and the counts |
| NodeCache.Fuse.New | lib/fuse.c:5028-5055 | a new session in which both tables and the slabs agree with the root alone, or none exactly when one of three allocations fails |
| NodeCache.Fuse.LookupNode | lib/fuse.c:849-861 | lookup by parent and name returns exactly the node bound there |
| NodeCache.Fuse.GetNode | lib/fuse.c:524-534 | lookup by id finds exactly the live nodes |
| NodeCache.Fuse.UnrefNode | lib/fuse.c:830-836 | the cascade terminates, does what `Unref` says and keeps both tables and the slabs in agreement with the nodes at every depth of the recursion; its asserts hold |
| NodeCache.Fuse.DeleteNode | lib/fuse.c:816-828 | the node is unlocked when it goes, leaves both tables and gives back its cell |
| NodeCache.Fuse.Destroy | lib/fuse.c:5171-5182 | the freeing loop gives back every cell once and ends with both slab lists empty: its asserts hold |
| NodeCache.Fuse.UnhashName | lib/fuse.c:733-759 | removes the name from the table, although `use` is lowered only after the nested cascade has used the same table |
| NodeCache.Fuse.HashName | lib/fuse.c:790-814 | enters the name and counts the reference on the parent, or changes nothing when a long name cannot be copied |
| NodeCache.Fuse.RemoveNode | lib/fuse.c:1411-1420 | the node bound to the name, if any, loses it; tables, tree and counts stay right |
| NodeCache.Fuse.RenameNode | lib/fuse.c:1422-1456 | the node moves, replacing a node at the target; a hiding rename onto a bound name returns -EBUSY and changes nothing, a failed copy of a long name returns -ENOMEM and leaves the node nameless; both tables stay in agreement; the tree stays one, with exact counts, if and only if the node does not go below itself |
| NodeCache.RenameTree | lib/fuse.c:1422-1456 | a rename of a node below itself makes a circle, and no other does |
| NodeCache.Fuse.NextId | lib/fuse.c:838-847 | terminates while fewer than 2^32-2 ids are live; the id is not 0, not the unknown inode and not live, and every id passed over is one of these; the pair of generation and id has grown |
| NodeCache.PairsGrow | include/fuse_kernel.h:662-664 | over any number of calls every pair is lexicographically larger than all earlier ones until the generation wraps |
| NodeCache.Fuse.FindNode | lib/fuse.c:870-907 | afterwards the name leads to a node with one lookup more, the bound one or a new one with a cell of its own under the next free id and the current generation, and every other record is as before but the directory's count; or it fails without changing a node, exactly when there is no cell or no memory for a long name, and then keeps no cell |
| NodeCache.Fuse.IncNodeLookup | lib/fuse.c:863-868 | exactly one lookup more of this node, tables unchanged |
| NodeCache.Fuse.ForgetNode | lib/fuse.c:1364-1400 | a forget does what `Forget` says, takes exactly its number off the node's lookups, keeps tables, tree and counts, and leaves the root alone |
| NodeCache.Fuse.UnlockPath | lib/fuse.c:972-991 | the loop releases exactly the chain up to `end` or the root, and the written node; its asserts hold |
| NodeCache.Fuse.TryGetPath | lib/fuse.c:993-1073 | the loop with its rollback does what `TryGet` says: the whole path locked, or every word as before but for a waiting mark; memory may run out before the target is looked at or at any name |
| NodeCache.Fuse.TryGetPath2 | lib/fuse.c:1075-1094 | both paths or none, as `TryAll` says |
| TreeLocks.TryGetGranted | lib/fuse.c:993-1073 | a granted path is the base's whole chain below the root, free of writers, and a target that was free |
| TreeLocks.TryGetFailed | lib/fuse.c:1065-1072 | a failed attempt leaves no hold: at most a waiting mark on a node with readers |
| TreeLocks.AllOrNothing | lib/fuse.c:1075-1094 | the same for one path and for two |
| TreeLocks.TryGetVerdict | lib/fuse.c:993-1073 | by the state alone, which of granted, wait, stale and no memory an attempt comes to, and its one effect on the words if it fails: the mark on a node to be written that has readers |
| TreeLocks.TryAllVerdict | lib/fuse.c:1075-1094 | the same for two paths: the second fails like a single one, or waits because it meets the first; the error is that of the path that failed |
| TreeLocks.GrantEncodes | lib/fuse.c:1018-1052 | after a grant every word encodes the holds including the new one |
| TreeLocks.ReleaseEncodes | lib/fuse.c:972-991 | after a release every word encodes the remaining holds |
| TreeLocks.ReleaseAsserts | lib/fuse.c:976-989 | on the chain of a hold none of the asserts of `unlock_path` can fire |
| TreeLocks.WriterExcludes | lib/fuse.c:1018-1052 | a written node has no other holder of any kind |
| LockTheorems.StepKeeps | lib/fuse.c:972-1487 | every lock, unlock, wake-up, lookup, forget, unlink, rename and exchange step keeps the invariant |
| LockTheorems.WordsAreExact | lib/fuse.c:157-158 | in every reachable state the word of a node is -1 with one writer and no reader, r or INT_MIN+r with exactly r readers and no writer, or 0 with neither, and fits an int |
| LockTheorems.ReleaseWalksLockedChain | lib/fuse.c:1334-1362 | in every reachable state the chain a release walks is the chain that was locked, and the asserts hold on it |
| LockTheorems.NegativeWordCloses | lib/fuse.c:1018-1052 | in every reachable state no path through or to a node with a negative word is granted |
| LockTheorems.ClosedExactly | lib/fuse.c:1018-1052 | no path through or to a node is granted, to anybody, if and only if a node on its way to the root is written or marked or the way does not reach the root |
| LockTheorems.NoReaderJoins | lib/fuse.c:993-1094 | in every reachable state a waiting request closes the last node of its path, or of one of its two paths, to everybody, unless its two paths are in each other's way |
| LockWitnesses.ReaderJoinsTwoPathWaiter | lib/fuse.c:1075-1094 | one of two is all that holds: a run in which a rename waits for a reader of its first node, nobody claims a name, and the node at the second name is open |
| LockTheorems.ForgottenUnheld | lib/fuse.c:816-828 | whatever a forget deletes is held by nobody: the assert of `delete_node` |
| LockTheorems.DroppedUnheld | lib/fuse.c:2701-2706 | the same at the end of a lookup of "." |
| LockTheorems.NothingLeaks | lib/fuse.c:733-836 | in every reachable state the tree is well formed, `refctr` is exact, and every live node is needed |
| LockLedger.BeginQueues | lib/fuse.c:1188-1209 | a request that has to wait is put at the end of the queue as it is, one that is granted holds exactly its paths, one that is refused leaves nothing |
| LockLedger.NoOperationLost | lib/fuse.c:1155-1362 | over every run an operation that has begun, was not refused and has not finished holds exactly the paths it asked for or is in the queue with its request; any other holds nothing and waits nowhere |
| LockProtocol.WakeOneAnswers | lib/fuse.c:1096-1126 | a wake-up stores the outcome of its attempt, unless that is to wait on, and touches nothing of other operations |
| LockLedger.DoneIsAnswered | lib/fuse.c:1096-1126 | in every reachable state a done element tells its operation that it holds exactly its paths, or why it holds none |
| LockTheorems.NoRenameIntoOwnSubtree | lib/fuse.c:1286-1332 | two granted paths rule out that the renamed node is an ancestor of the target directory |
| LockTheorems.LookupBinds | lib/fuse.c:870-907 | in every run a lookup binds an unbound name to the new node and changes no other binding |
| LockTheorems.RemoveUnbinds | lib/fuse.c:1402-1420 | in every run an unlink takes away the binding of its name and no other |
| LockTheorems.RenameMovesBinding | lib/fuse.c:1422-1456 | in every run a completed rename leads the new name to the old one's node and the old name nowhere, and keeps every other binding |
| LockWitnesses.RenameHappens | lib/fuse.c:1286-1332 | the theorems are not idle: a run of a lookup and a two-path lock reaches a state in which a rename has its locks and a node to move |
| LockTheorems.ExchangeSwaps | lib/fuse.c:1458-1487 | in every run a completed exchange swaps the two bindings and keeps every other |
| LockTheorems.WaitersAreBlocked | lib/fuse.c:1096-1209 | in every reachable state a waiting request needs a node that another operation holds and that is written or marked, or has two paths in each other's way |
| LockTheorems.CrossedFails | lib/fuse.c:1075-1094 | two paths in each other's way are never held together |
| LockTheorems.WaiterNotGranted | lib/fuse.c:1096-1209 | no lost wake-up: in every reachable state no waiting request, of one path or two, would be granted if tried again |
| LockTheorems.LastReleaseWakesAll | lib/fuse.c:1128-1133 | with no hold left no request waits, but for two paths in each other's way |
| LockTheorems.NoDoubleGrant | lib/fuse.c:1096-1133 | a wake-up pass leaves completed elements and all existing holds as they were |
| LockProtocol.PassBlocks | lib/fuse.c:1128-1133 | after a pass over the queue every element still waiting needs a node that is written or marked, or has two paths in each other's way |
| ByteLocks.LockList.Insert | lib/fuse.c:3994-4066 | on exactly the requested range the owner holds the new kind, or nothing after an unlock; every other byte and owner is as before; the list stays normal; a request already contained changes nothing, else there is one entry with its pid, and every other entry of the owner is a piece of an old one with the old pid; fails exactly when the spare cells are needed and missing, and the split finds its spare cell |
| ByteLocks.OneKindPerByte | lib/fuse.c:3994-4066 | in a normal list an owner has at most one kind of lock on a byte |
| ByteLocks.LockList.Conflict | lib/fuse.c:3968-3979 | returns the first entry in the way, pid and all, if and only if another owner holds an incompatible lock on some byte of the range |
| ByteLocks.HistoryMeans | lib/fuse.c:3994-4066 | after any sequence of requests the last one that covers a byte decides who holds what there |
| ByteLocks.HistoryPids | lib/fuse.c:3994-4066 | after any sequence of requests every entry has the pid of a request of its owner and kind |
| ByteLocks.FlushReleasesAll | lib/fuse.c:4087-4117 | unlocking everything leaves the owner nothing and the others everything, in order |
| ByteLocks.RangeRoundTrip | lib/fuse_lowlevel.c:1695-1707 | kernel range to flock to lock and back is the identity for 0 <= start <= end <= OFFSET_MAX, without overflow; an unlocked answer carries no range |
| Interrupts.StepKeeps | lib/fuse_lowlevel.c:1777-1862 | every step of every thread keeps counts, mutexes, callbacks, lists and records right |
| Interrupts.NoUseAfterDestroy | lib/fuse_lowlevel.c:132-153 | in every reachable state whatever a thread works on is live, and whatever is live is known to a thread that will destroy it |
| Interrupts.DestroyedOnce | lib/fuse_lowlevel.c:125-153 | the step that destroys a request leaves nobody who knows it |
| Interrupts.InFlightOrPending | lib/fuse_lowlevel.c:2930-2938 | no request in flight is the target of a waiting interrupt, and waiting targets are distinct |
| Interrupts.ArrivalTakesNumber | lib/fuse_lowlevel.c:2930-2938 | an arriving request is in flight under its number, without callback, marked exactly if an interrupt was waiting for it |
| Interrupts.ArrivalAnswers | lib/fuse_lowlevel.c:1840-1862 | exactly one waiting interrupt leaves with each arrival, if there is any: the one for its number, matched, or the first in line, answered EAGAIN |
| Interrupts.MarkedForAReason | lib/fuse_lowlevel.c:1777-1862 | in every reachable state a marked request was named by an interrupt, and callbacks have run only for marked requests |
| Interrupts.InterruptTaken | lib/fuse_lowlevel.c:1777-1838 | an interrupt gets a reference to the request in flight it names if there is one, and otherwise exactly one element waits for that number |
| Interrupts.PendingLeaves | lib/fuse_lowlevel.c:1840-1862 | a waiting interrupt leaves only when its request arrives, marked, or as the first in line, answered EAGAIN, when an unrelated one arrives |
| Interrupts.FatesAreFinal | lib/fuse_lowlevel.c:1777-1862 | what became of an interrupt is final, and a delivery under way ends only by marking the request it was meant for |
| Interrupts.StepRecords | lib/fuse_lowlevel.c:1777-1862 | every step keeps the records of interrupts about the requests they name |
| Interrupts.InterruptAccounted | lib/fuse_lowlevel.c:1777-1862 | every received interrupt waits for its number, is being delivered to the request of that number, has marked it, was answered and waits no longer, or was a duplicate of one for the same number that waits, marked its request or was answered |
| Interrupts.CallbackRuns | lib/fuse_lowlevel.c:2723-2734 | a callback registered before or after the interrupt has run whenever the mutex of the interrupted request is free |
| Interrupts.LastRegistrationStands | lib/fuse_lowlevel.c:2723-2734 | over every run a request has the callback it registered last, and none once it has been replied to |
| Interrupts.DeregisteredIsQuiet | lib/fuse_lowlevel.c:2723-2734 | after deregistration no thread runs a callback of the request, nor does any step until it registers again |
| BufCopy.BufSize | lib/buffer.c:22-35 | the total size, or the largest size_t when it would overflow |
| BufCopy.BufVec.Advance | lib/buffer.c:265-282 | what is left is exactly what was left without its first `len` bytes, across buffer ends and empty buffers |
| BufCopy.Copy | lib/buffer.c:284-324 | copies min(source left, destination left) bytes; destination bytes equal the flattened source prefix, all other memory is unchanged, the source cursor moves by exactly that |
| BufCopy.CopyAny | lib/buffer.c:284-324 | the transfers made are the ones that follow from the results: each but the last full, the next one starting where it ended, none after the first that fails, falls short or ends a side; the count is their sum, each cut to its piece, and the source cursor has moved by it; an error is returned only if that is 0 and the next transfer fails |
| OptionCodec.AddOpt | lib/fuse_opt.c:115-147 | the list grows by a comma if it was not empty and the escaped option, within the allocation, or stays as it is exactly when the realloc fails |
| OptionCodec.DecodeInPlace | lib/fuse_opt.c:294-332 | the in-place decoder passes on the options of the original text, up to the first refused, while overwriting that text: the write index never passes the read index; what is refused may depend on all options before |
| OptionCodec.DecodeEncode | lib/fuse_opt.c:115-332 | what encoding and decoding give for every list |
| OptionCodec.RoundTrip | lib/fuse_opt.c:115-332 | the identity if and only if the first option is not empty or is alone |
| OptionCodec.OctalRoundTrip | lib/fuse_opt.c:311-320 | any bytes written as three-digit octal escapes are read back as one option |
| OptionCodec.BackslashQuotes | lib/fuse_opt.c:311-325 | a backslash quotes whatever follows it but an octal escape, and stands for itself at the end |
| OptionCodec.PlainRoundTrip | lib/fuse_opt.c:139-142 | options without commas and backslashes come back as they were, added with or without escapes |
| OptionCodec.CommasSplit | lib/fuse_opt.c:294-332 | text without backslashes is read as the pieces between its commas |
| OptionCodec.EmptyFirstOptionIsLost | lib/fuse_opt.c:115-137 | an input that loses its empty first option |
| OptionCodec.OptionsSurvive | lib/fuse_opt.c:115-332 | NUL-free options that were added are passed on, all and in order |
| PathText.PathBuf.AddName | lib/fuse.c:939-970 | a slash and the name in front of the path, the old text kept when the buffer grows, every write inside it below 2^32 |
| PathText.BuildPath | lib/fuse.c:993-1063 | the string is the path of the names from the root down, or "/"; none only without a way to the root or without memory |
| PathText.ResolvePath | lib/fuse.c:909-936 | resolving follows the non-empty pieces between slashes, one lookup each; -ENOENT exactly when one is not bound, -ENOMEM exactly when the path cannot be copied |
| PathText.TokensRead | lib/fuse.c:909-936 | slashes in front of a text do not matter, and a piece ends at a slash or at the end |
| PathText.TokensPlain | lib/fuse.c:909-936 | no piece is empty or has a slash in it |
| PathText.PathResolves | lib/fuse.c:909-1063 | the printed path of a node linked to the root through plain names resolves to that node |
| Slab.Geometry.AddressDetermines | lib/fuse.c:413-416 | masking a cell's address gives its page, and the address its index; cells lie inside the page, after the header |
| Slab.Geometry.Fits | lib/fuse.c:418-448 | a page holds as many cells as fit behind the header, and no more would |
| Slab.Slabs.AllocNode | lib/fuse.c:450-471 | hands out a cell that is not live, or fails exactly when no page has a free cell and no page can be had; a page is added exactly when none has a free cell |
| Slab.Slabs.FreeNode | lib/fuse.c:484-499 | exactly this cell becomes free; the page changes list or goes as its last cell does |
| Slab.EmptyWhenNothingLive | lib/fuse.c:5181-5182 | both lists are empty if and only if no cell is live: the asserts of `fuse_destroy` |
| Readdir.AddDirent | lib/fuse_lowlevel.c:286-311 | writes the padded record if it fits, and its length either way |
| Readdir.RecordFields | include/fuse_kernel.h:1004-1020 | the fields of a record read back from its bytes |
| Readdir.PageRoundTrip | include/fuse_kernel.h:1014-1020 | a page of records, stepped through by record size, decodes to the entries written |
| Readdir.ExtendContents | lib/fuse.c:3417-3440 | the buffer grows to the size asked for with its contents, or -ENOMEM |
| Readdir.FillFromList | lib/fuse.c:3671-3725 | a page holds exactly the longest run of entries from the offset that fits, or nothing is changed and -ENOMEM returned when the buffer cannot grow |
| Readdir.StopIsLongest | lib/fuse.c:3671-3725 | the entries of a page fit it, and with the next one they would not |
| Readdir.PageShows | lib/fuse_lowlevel.c:286-311 | a reader of a filled page sees the inode, type and name of each cached entry and the offset after it |
| Readdir.LastOffset | lib/fuse.c:3671-3725 | the last offset of a page is where the next one starts |
| Readdir.PagingIsExact | lib/fuse.c:3671-3725 | a reader that continues from the last offset sees every entry once, in order, if and only if each page asked for has room for the entry it starts with |
| Readdir.LargestEntryFits | lib/fuse.c:3671-3725 | room for the largest entry is enough |
| Readdir.SmallPageEndsEarly | lib/fuse.c:3671-3725 | a page is empty before the end exactly when it is too small for the next entry |
| WorkerPool.StepKeeps | lib/fuse_loop_mt.c:139-210 | receiving and finishing keep the counters exact |
| WorkerPool.StartsExactly | lib/fuse_loop_mt.c:155-171 | a message starts a thread if and only if it is not known for a forget and the last available worker below the limit received it |
| WorkerPool.SurplusLeaves | lib/fuse_loop_mt.c:178-206 | a worker that is done leaves if and only if more would be available than max_idle allows and it is not the last; the others are as they were |
| WorkerPool.ForgetStarts | lib/fuse_loop_mt.c:155-171 | a forget starts a thread if and only if it is in a pipe and the last available worker below the limit received it; a FORGET never is, a BATCH_FORGET is from a stated count on |
| WorkerPool.SplicedBatchStarts | lib/fuse_lowlevel.c:3157-3170 | a run from INIT on after which a spliced batch of forgets starts a thread |
| WorkerPool.PoolIsAccounted | lib/fuse_loop_mt.c:317-352 | over every run numworker is the list length within 1..max(1, max_threads), and numavail the number of workers that wait or work on a forget that is not in a pipe, at most max(1, max_idle) unless max_idle is -1 |
| WorkerPool.NeverStarves | lib/fuse_loop_mt.c:139-210 | no run leaves nobody available below the limit without a failed start, if and only if an idle thread may be kept or max_threads is at most 1 |

## Left out

- The `remember` option with its LRU list and cleaner: `conf.remember` is 0 throughout.
- System calls, splice and pipes: `CopyAny` takes the results of transfers as arbitrary values.
- Deadlock freedom of two-path requests: the source has no check for it, so only safety is proved of them.
- `check_dir_loop`, which is built on FreeBSD only.
- NodeCache.Fuse.TryGetPath: the text of the path is not built in the same loop; `PathText.BuildPath` builds it.
- NodeCache.Fuse.RenameNode: the `is_hidden` flag of a renamed node is not modelled, because nothing in the model reads it.
- Lookup counts during readdirplus; paging is for plain readdir and a complete listing.
- The destination cursor after `fuse_buf_copy`, and copying a vector to itself.
- The lookup of "..", and the choice of hidden names.
- Overflow of `refctr`, `nlookup` and 32-bit buffer lengths in `fuse_opt.c` and of directory handles.
- `exchange_node` as a class method: it is a step of the lock protocol (`LockSteps.ExchangeNodes`), on values.
- Exit of the session and joining of worker threads; of `fuse_destroy`, the unlinking of hidden files.
- The window inside `find_interrupted` in which both mutexes are taken: marking is one step, since it happens entirely under the session lock.
- Interrupts when `no_interrupt` is set, where the lists are not used.
- Pointer structure: hash chains, lists and trees are sequences and maps, so aliasing of list nodes is not captured.
- Forwarding wrappers, opcode decoders, mounting, signals, logging, module loading and the example file systems, which would add easy members only.
