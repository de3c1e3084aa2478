# A verified model of bbolt

bbolt keeps ordered buckets of key/value pairs in one file: a copy-on-write B+tree with one writer and
many readers, each reader on the snapshot that was committed when it began. This project models the parts
of it that have to be right for that to work, and proves that they are.

- **Pages and transactions.** `PageIds`, `ArrayFreelist`, `HashMapFreelist`, `PendingLists`, `SharedFreelist`
  and `FreelistPages` are the freelist with both of its backends, as objects whose methods are proved
  against the values of `Reclaim`. `Protocol` is the transaction protocol as a transition system, with page
  writes one at a time and a crash possible between any two; `Isolation` holds what is true of all its runs,
  `Readers` what follows from the events of a run; `Database` is the database object, each of whose methods is a
  step of the protocol, and `Openings` opens it without a stored freelist.
- **Buckets.** `Trees`, `Cursors` and `Buckets` are a bucket as cursors see it. `Levels`, `Bounds`,
  `LeafEdits`, `Rebalance`, `Spill` and `NodeCaches` are its pages under the node cache: puts and deletes,
  rebalance and spill. `StoredTrees` connects the two, and `BucketCommits` both with the database. `Nodes` is
  the single node with its split.
- **Checking.** `KeyOrder` is the checker's recursion over the keys, `PageTrees` the walk over buckets and
  pages, `PageChecks` the accounting of pages.
- **Pages as bytes, and tools.** `InodePages` writes inodes to a page and reads them back, `Surgeon` clears
  elements of a page in place, `XRay` walks the pages of a file, `Compact` copies a database.

`Keys`, `Inodes` and `Options` are shared by the rest. `dafny verify dfyconfig.toml` checks everything.

Every object that the source updates in place is a class here, and every loop of the source that updates
variables is a loop. Go's map iteration is an arbitrary choice, so what is proved holds for every order.
Page and transaction ids are natural numbers; transaction ids are bounded by the 64-bit maximum, which
`ReleasePendingPages` uses as an upper bound. Lengths and offsets within a page are written as words of the
source's width.

## Findings

Where the code does less than its comments or messages say, the code is modelled as it is, and the
difference is proved.

- **A rollback can lose pages.** `rollback` does not give back what the transaction took from the freelist
  (`tx.go:322-330`). `Isolation.RollbackLoses`: one rollback loses pages if and only if the writer holds a
  page below the last commit's high water mark that is not in its tree; `Isolation.TookIsReuse`: that is so
  if and only if one of its allocations was served from the freelist; `Isolation.LossIsReuse`: over every
  run, every page is accounted for if and only if no such rollback has happened since the freelist was last
  rebuilt, or since the commit whose freelist was last loaded. `Isolation.LosingRun` is a run of ten steps
  that loses page 2. `PageChecks.LossIsReported`: the checker then complains of exactly the lost pages.
- **The checker does not look for every page in the free list.** Only the first page of each block is looked
  up (`tx_check.go:164`), and the freelist's own block not at all. `PageChecks.SilenceMissesTails`: when the
  check is silent, no page is both reached and free if and only if the free list contains neither a page of
  the metas and the freelist nor a page after the first of a block. `PageChecks.FreedTailUnnoticed` is a
  database of five pages where page 4 is both, and the check is silent.
- **An empty page hides disorder from the key order checker.** A subtree that ends in an empty leaf hands
  back no key, and the next separator is then compared with nothing (`tx_check.go:185-221`).
  `KeyOrder.SilenceIsSorted`: for every tree, when the check is silent, the keys are sorted on every page, as
  `tx_check.go:180-184` says, if and only if each separator after such a subtree is above the subtree's own;
  and then all keys of the tree rise and lie in range. `KeyOrder.EmptyPageHidesDisorder` is a tree where the
  check is silent and the keys descend. With no empty page at all, silence and order are the same
  (`KeyOrder.SilenceMeansOrder`).
- **Clearing the tail of a page can lose what should stay.** `ClearPageElements` then does not move the data,
  but shortens the page as if it had (`surgeon.go:74-81`). `Surgeon.ClearPageElements` states the exact
  condition: the elements before `start` survive if and only if the last of them ends within the pages that
  are written back, which is known before anything is written. `Surgeon.LoseTail` clears all but the first
  of 256 small items on two pages, and the first one is lost.
- **`XRay` calls a page with two references a cycle** (`xray.go:26-28`). `XRay.XRay.Traverse`: the walk
  succeeds if and only if the pages unfold to a finite tree with no page twice and none that the callback
  rejects; `XRay.SharedPageIsRefused` has no cycle and fails.
- **`hashMap.Init` with an empty list leaves the lookup cache as it was** (`hashmap.go:30-32`).
  `SharedFreelist.Freelist.Init`: the cache is right afterwards if and only if the backend is the array, the
  list is not empty, or the cache held just the pending pages. `SharedFreelist.StaleCache` loads page 2 and
  then nothing, and page 2 stays in the cache. `db.go:427-432` loads a freelist only when it is new, where the
  condition holds; `NoSyncReload` and `Reload` pass lists that can be empty (`shared.go:216-240`), and
  `SharedFreelist.Freelist.NoSyncReload` and `FreelistPages.Reload` state the condition for them, but nothing
  outside the freelist package calls either.
- **`splitIndex` returns a size that is one element too large when its loop ends without a break**
  (`node.go:275-290`). `Nodes.Node.SplitIndex`: the index is always right, and the size if and only if the
  next element would pass the threshold. `Nodes.OneTooMany` shows it for five small inodes. Its only caller,
  `splitTwo` (`node.go:246`), does not use the size.
- **`Prev` stops at an empty leaf, and forgets its place at the start** (`cursor.go:251-271`), while `Next`
  goes past empty leaves and stays at the end. `Cursors.Cursor.Prev` says in each case where the cursor then
  is. `Cursors.ForEachReverse`: on every tree, going back from the end finds the items back to the first empty
  leaf that has items after it, which are all items if and only if no empty leaf has items both before and
  after it; `Cursors.ReverseStops` has leaves with 1, nothing and 5, and only 5 is found. What a commit leaves
  has no empty leaf but an only one (`StoredTrees.CommittedTree`).

## Model

| member | source | states |
|---|---|---|
| PageIds.MergedIds | environment/bbolt/internal/common/page.go:365-403 | the merge holds exactly the ids of both lists, with their multiplicities |
| PageIds.MergedSorted | environment/bbolt/internal/common/page.go:365-403 | the merge of two sorted lists is sorted and stays above any common lower bound |
| PageIds.MergedSymmetric | environment/bbolt/internal/common/page.go:375-379 | for sorted lists it does not matter which of them leads |
| PageIds.MergedGallop | environment/bbolt/internal/common/page.go:383-393 | one round, taking the prefix of the lead up to the first follower and swapping, does not change the merge of what is left |
| PageIds.Mergepgids | environment/bbolt/internal/common/page.go:365-403 | on sorted lists it fills the front of the destination with their merge, ends, and leaves the rest of the destination alone |
| PageIds.MergeRounds | environment/bbolt/internal/common/page.go:381-402 | the rounds end, since each consumes an element, and produce the merge |
| PageIds.Merge | environment/bbolt/internal/common/page.go:350-361 | the new list is the sorted union with multiplicities, whichever list is empty |
| PageIds.DisjointUnion | environment/bbolt/internal/freelist/shared.go:207-214 | merging two strictly ascending lists with no id in common gives a strictly ascending list of their union, as long as both together |
| ArrayFreelist.ScanStep | environment/bbolt/internal/freelist/array.go:26-59 | what one step of the scan keeps: the current run is the longest ending here, and no earlier run is long enough |
| ArrayFreelist.Array.Allocate | environment/bbolt/internal/freelist/array.go:21-61 | returns 0 exactly when no n contiguous ids are free (or n is 0), otherwise the smallest start of such a run; exactly that run leaves the list |
| ArrayFreelist.Array.TakeBlock | environment/bbolt/internal/freelist/array.go:42-51 | the in-place removal takes out exactly the run, from the front of the list or from its middle |
| ArrayFreelist.Array.MergeSpans | environment/bbolt/internal/freelist/array.go:71-99 | the free set becomes its union with the new ids, whatever their order |
| ArrayFreelist.Array.Init | environment/bbolt/internal/freelist/array.go:16-19 | the free set is the set of the given ids |
| ArrayFreelist.Array.FreePageIds | environment/bbolt/internal/freelist/array.go:67-69 | the free ids, strictly ascending |
| ArrayFreelist.Array.FreeCount | environment/bbolt/internal/freelist/array.go:63-65 | the number of free ids |
| HashMapFreelist.HashMap.Init | environment/bbolt/internal/freelist/hashmap.go:23-59 | from strictly ascending ids the three maps and the counter describe exactly these ids as disjoint maximal spans |
| HashMapFreelist.HashMap.Allocate | environment/bbolt/internal/freelist/hashmap.go:61-106 | for any order of the maps: 0 exactly when no n contiguous ids are free, otherwise exactly one free run of n leaves, and the maps stay consistent |
| HashMapFreelist.HashMap.CarveFront | environment/bbolt/internal/freelist/hashmap.go:83-101 | a larger span gives up its front and keeps the rest as a span |
| HashMapFreelist.HashMap.FreeCount | environment/bbolt/internal/freelist/hashmap.go:108-117 | the counter is the number of free ids |
| HashMapFreelist.HashMap.FreePageIds | environment/bbolt/internal/freelist/hashmap.go:119-142 | the free ids, strictly ascending, from spans in any order |
| HashMapFreelist.HashMap.AddSpan | environment/bbolt/internal/freelist/hashmap.go:152-161 | a span that touches no other is added to all three maps and the counter consistently |
| HashMapFreelist.HashMap.DelSpan | environment/bbolt/internal/freelist/hashmap.go:163-171 | a span is removed from all three maps and the counter consistently |
| HashMapFreelist.HashMap.MergeSpans | environment/bbolt/internal/freelist/hashmap.go:173-219 | the free set becomes its union with the new ids, and the spans stay maximal |
| HashMapFreelist.HashMap.MergeWithExistingSpan | environment/bbolt/internal/freelist/hashmap.go:222-247 | a block joins the spans on either side of it, and the free set grows by exactly the block |
| HashMapFreelist.RunInOneSpan | environment/bbolt/internal/freelist/hashmap.go:66-103 | a contiguous free run lies within one span, so looking for a span of at least n finds any run of n |
| HashMapFreelist.JoinedCovers | environment/bbolt/internal/freelist/hashmap.go:222-247 | dropping the neighbouring spans and adding the joined one covers the old ids and the block |
| HashMapFreelist.AddKeeps | environment/bbolt/internal/freelist/hashmap.go:152-161 | adding a span keeps the four descriptions of the free set in agreement |
| HashMapFreelist.DelKeeps | environment/bbolt/internal/freelist/hashmap.go:163-171 | removing a span keeps the four descriptions of the free set in agreement |
| Reclaim.ReleasableMeaning | environment/bbolt/internal/freelist/shared.go:141-203 | a pending page may go if and only if no open reader lies between its allocation and its release |
| Reclaim.ExtentsCover | environment/bbolt/internal/freelist/shared.go:141-158 | being below the oldest reader or within one gap between consecutive readers, or past the last, is the same as being held by no reader |
| Reclaim.AllExtentsMoved | environment/bbolt/internal/freelist/shared.go:141-158 | going through all gaps moves only releasable pages, and with nothing skipped all of them |
| PendingLists.SkipHarmless | environment/bbolt/internal/freelist/shared.go:182-185 | a list that was scanned from the same begin holds no page that a new scan would release, so skipping it keeps nothing back |
| PendingLists.ScanEnd | environment/bbolt/internal/freelist/shared.go:173-203 | after all lists, in any order, exactly the pages of the range are gone and what is left is marked soundly |
| PendingLists.TakeEntry | environment/bbolt/internal/freelist/shared.go:186-195 | swapping the last entry into the place of a released one removes exactly that entry |
| SharedFreelist.Freelist.ReleasePendingPages | environment/bbolt/internal/freelist/shared.go:141-158 | releases only pages that no reader can see; and, the scan marks being sound, exactly those freed before the oldest reader or allocated and freed in one gap between readers |
| SharedFreelist.Freelist.Release | environment/bbolt/internal/freelist/shared.go:160-171 | exactly the pages freed up to the transaction become free |
| SharedFreelist.Freelist.ReleaseRange | environment/bbolt/internal/freelist/shared.go:173-203 | moves only pages allocated and freed within the range, all of them when the scan marks are sound, and keeps the marks sound |
| SharedFreelist.Freelist.Free | environment/bbolt/internal/freelist/shared.go:56-87 | the page and its overflow pages become pending under the transaction, with the allocating one looked up and forgotten |
| SharedFreelist.Freelist.Rollback | environment/bbolt/internal/freelist/shared.go:89-118 | the pages that the transaction freed are no longer pending, their allocations are restored, its own allocations forgotten; nothing happens when it had freed none |
| SharedFreelist.Freelist.RestoreTx | environment/bbolt/internal/freelist/shared.go:96-110 | exactly the transaction's pages leave the cache, and each with a known allocation has it again |
| SharedFreelist.Freelist.ForgetAllocs | environment/bbolt/internal/freelist/shared.go:112-117 | exactly the entries of the transaction disappear |
| SharedFreelist.Freelist.AddReadonlyTXID | environment/bbolt/internal/freelist/shared.go:120-122 | one more reader |
| SharedFreelist.Freelist.RemoveReadonlyTXID | environment/bbolt/internal/freelist/shared.go:124-133 | one reader less, others with the same id remaining |
| SharedFreelist.Freelist.Allocate | environment/bbolt/internal/freelist/array.go:21-61 | with either backend: the common specification of allocation; the first page of the block is recorded under the transaction, and the cache loses the block |
| SharedFreelist.Freelist.PendingList | environment/bbolt/internal/freelist/shared.go:35-37 | all pending ids, each once |
| SharedFreelist.Freelist.Count | environment/bbolt/internal/freelist/shared.go:47-49 | the number of free and pending pages |
| SharedFreelist.Freelist.Copyall | environment/bbolt/internal/freelist/shared.go:207-214 | the front of the destination holds exactly the free and pending ids, strictly ascending; the rest is untouched |
| SharedFreelist.Freelist.NoSyncReload | environment/bbolt/internal/freelist/shared.go:221-240 | the given ids become free, but for those that are pending; the cache is right afterwards exactly for the array backend, a list that is not all pending, or a cache that held just the pending ids |
| SharedFreelist.Freelist.Reindex | environment/bbolt/internal/freelist/shared.go:243-255 | the cache is the set of free and pending ids |
| SharedFreelist.Freelist.Init | environment/bbolt/internal/freelist/hashmap.go:23-59 | the given ids are free, whether pending or not; the cache is right afterwards exactly for the array backend, a non-empty list, or a cache that held just the pending ids |
| SharedFreelist.StaleCache | environment/bbolt/internal/freelist/hashmap.go:30-32 | a freelist that is loaded with a page and then with none, and keeps the page in its cache |
| FreelistPages.Write | environment/bbolt/internal/freelist/shared.go:287-310 | for every number of ids, the bytes of the page are the flags, the count and eight bytes for each id, strictly ascending, of the union of free and pending ids; they end where the estimate says and no other byte changes |
| FreelistPages.StoreIds | environment/bbolt/internal/freelist/shared.go:293-307 | below 0xFFFF ids the count is in the header, from there on in the first word; every byte of the page is as that layout says |
| FreelistPages.Read | environment/bbolt/internal/freelist/shared.go:257-276 | the stored ids become the free ones, with the cache as Init leaves it; pending ones among them are not filtered |
| FreelistPages.Reload | environment/bbolt/internal/freelist/shared.go:216-219 | the stored ids that are not pending become free; the cache is right afterwards exactly for the array backend, a non-empty page, or a cache that held just the pending ids |
| FreelistPages.FreelistPageIds | environment/bbolt/internal/common/page.go:132-167 | the ids that the header count, or the first word when it is 0xFFFF, announces, read from the bytes of the page |
| FreelistPages.StoredWritten | environment/bbolt/internal/common/page.go:132-167 | a page that is laid out so reads back as the ids, whatever their number |
| FreelistPages.EstimateSuffices | environment/bbolt/tx.go:270-281 | the pages asked for before the allocation have room for sixteen bytes and eight for each word of the freelist as it is after the allocation, which is what Write demands |
| FreelistPages.EstimatedWritePageSize | environment/bbolt/internal/freelist/shared.go:278-285 | sixteen bytes and eight for each free or pending id, and eight more from 0xFFFF ids on |
| FreelistPages.EstimateIsEnd | environment/bbolt/internal/freelist/shared.go:278-285 | the estimate is the end of the last word that Write stores |
| FreelistPages.PagesToAsk | environment/bbolt/tx.go:273-275 | one more than the whole pages that the estimate fills |
| Protocol.InitialInv | environment/bbolt/db.go:646-689 | a new database satisfies the invariant |
| Protocol.ReaderInv | environment/bbolt/db.go:792-837 | beginning and ending a reader keep the invariant |
| Protocol.HeldNotReleasable | environment/bbolt/internal/freelist/shared.go:141-203 | a page allocated up to a reader and freed after it is not releasable |
| Protocol.ReleaseVisible | environment/bbolt/internal/freelist/shared.go:141-203 | releasing keeps every page of an open snapshot out of the free set |
| Protocol.BeginWriteInv | environment/bbolt/db.go:839-872 | a new writer, after releasing, keeps the invariant |
| Protocol.FreePageInv | environment/bbolt/internal/freelist/shared.go:56-87 | freeing a block of the last commit keeps the invariant |
| Protocol.AllocateFreeInv | environment/bbolt/db.go:1135-1160 | an allocation from the freelist keeps the invariant |
| Protocol.AllocateGrowInv | environment/bbolt/db.go:1160-1190 | an allocation beyond the high water mark keeps the invariant |
| Protocol.NewPagesAdded | environment/bbolt/db.go:1135-1190 | the allocated block shares no page with the writer's tree or the last commit, so exactly its pages are new |
| Protocol.StartWritingInv | environment/bbolt/tx.go:170-232 | the step from editing to writing keeps the invariant |
| Protocol.WritePageInv | environment/bbolt/tx.go:467-539 | each single page write keeps the invariant, so no page of an open snapshot is overwritten |
| Protocol.MetaSlot | environment/bbolt/internal/common/meta.go:44-60 | the meta goes to the slot that does not hold the newest one, and is then the newest |
| Protocol.WriteMetaInv | environment/bbolt/tx.go:542-569 | the commit keeps the invariant, with the new snapshot as the implicit reader |
| Protocol.RollbackInv | environment/bbolt/tx.go:311-330 | a rollback keeps the invariant |
| Protocol.NeverFreesOwn | environment/bbolt/internal/freelist/shared.go:104-107 | the writer has no page pending that it allocated itself, so a rollback never panics |
| Protocol.StoredFreelist | environment/bbolt/db.go:424-438 | a freelist that is loaded or rebuilt is what neither the tree nor recorded losses contain |
| Protocol.ReopenInv | environment/bbolt/db.go:424-438 | opening again after a crash or a close keeps the invariant |
| Protocol.StepInv | environment/bbolt/tx.go:170-330 | every step keeps the invariant |
| Protocol.RunInv | environment/bbolt/tx.go:170-330 | the invariant holds in every state of every run |
| Isolation.SnapshotsSurvive | environment/bbolt/internal/freelist/shared.go:141-203 | in every state of every run, the pages of every open reader's snapshot and of the last commit are not free and hold what they held when committed |
| Isolation.AllocationUnused | environment/bbolt/db.go:1135-1190 | no allocation in any run hands out a page of an open snapshot or of the last commit |
| Isolation.FreeingNeverPanics | environment/bbolt/internal/freelist/shared.go:56-118 | in no state of any run do the panics of free and rollback fire: the pages that the writer may free are neither free nor pending, and none that it has freed was its own |
| Isolation.ReadersAreIsolated | environment/bbolt/db.go:792-837 | a reader that stays open finds on every page of its snapshot what it found there before |
| Isolation.CommitIsAtomic | environment/bbolt/tx.go:542-569 | no step but the meta write changes the meta that an opener selects; the meta write publishes the writer's tree and leaves the superseded meta in place |
| Isolation.CrashRecovers | environment/bbolt/db.go:1127-1132 | after any step of any run the database opens with the selected snapshot intact and a freelist that shares no page with it |
| Isolation.RollbackLoses | environment/bbolt/tx.go:322-330 | a rollback loses pages if and only if the writer holds reused pages |
| Isolation.TookIsReuse | environment/bbolt/db.go:1135-1160 | over every run, the writer holds reused pages if and only if one of its allocations came from the freelist |
| Isolation.LossIsReuse | environment/bbolt/tx.go:311-330 | over every run, every page below the high water mark is free, pending or in the tree if and only if no rollback that counts had taken a page from the freelist |
| Isolation.OnlyRollbackLoses | environment/bbolt/tx.go:170-268 | without rollbacks nothing is ever lost |
| Isolation.LosingRun | environment/bbolt/tx.go:322-330 | a run whose rollback loses page 2, the block of the first freelist, after a commit without a stored freelist has freed it |
| Readers.RegisteredAreBegun | environment/bbolt/db.go:817-823 | over every run, the readers registered at a transaction are those begun at it and not ended since the database was last opened |
| Readers.BegunReadersKeepTheirPages | environment/bbolt/db.go:792-837 | over every run, from the events alone: from a begin on, until as many readers at its transaction have ended, or the database is opened again, every page of the commit it began on holds what it held and is not free |
| Readers.UnreadPagesReturn | environment/bbolt/internal/freelist/shared.go:141-158 | over every run, a new writer gets back exactly the pending pages between whose allocation and release no reader that is still open has begun |
| Readers.AllocationPrefersFree | environment/bbolt/db.go:1135-1190 | over every run, an allocation takes free pages exactly when there is a run of them, just these pages leave the free ones, and otherwise the file grows by the block |
| Readers.RollbackUndoes | environment/bbolt/internal/freelist/shared.go:89-118 | over every run, after a rollback the pending pages and the known allocations of the last commit are as when the transaction began; what was taken from the free pages is not given back |
| Readers.ReleaseNamesAllocator | environment/bbolt/internal/freelist/shared.go:56-87 | over every run, all pages of a block that was taken from the free pages are later released on record of the transaction that took it |
| Database.DB.constructor | environment/bbolt/db.go:646-689 | a new database is the initial state of the protocol |
| Database.DB.CurrentMeta | environment/bbolt/db.go:1127-1132 | one of the two metas, of which none has a larger transaction id; all pages of its tree hold what was committed |
| Database.DB.BeginTx | environment/bbolt/db.go:792-837 | one more reader is registered, at the last commit; nothing else changes |
| Database.DB.RemoveTx | environment/bbolt/db.go:875-896 | one reader less at that transaction; nothing else changes |
| Database.DB.BeginRWTx | environment/bbolt/db.go:839-872 | is the protocol's step: exactly the releasable pages become free |
| Database.DB.FreePage | environment/bbolt/node.go:494-499 | is the protocol's step: the block becomes pending and leaves the writer's tree |
| Database.DB.Allocate | environment/bbolt/db.go:1135-1190 | is the protocol's step: a block from the freelist, or from the high water mark, which then moves |
| Database.DB.StartWriting | environment/bbolt/tx.go:170-232 | is the protocol's step |
| Database.DB.WritePage | environment/bbolt/tx.go:478-516 | is the protocol's step: exactly one page of the disk changes |
| Database.DB.WritePages | environment/bbolt/tx.go:467-539 | all dirty pages are on disk and no other page has changed |
| Database.DB.WriteMeta | environment/bbolt/tx.go:542-569 | is the protocol's step: the meta slot of the transaction id changes, the other does not |
| Database.DB.Rollback | environment/bbolt/tx.go:322-330 | is the protocol's step; it needs nothing but an open writer |
| Database.DB.FreeFreelist | environment/bbolt/tx.go:204-207 | the old freelist block is freed, and the set of new pages is as before |
| Database.DB.CommitFreelist | environment/bbolt/tx.go:270-281 | a block of new pages is allocated, as many as the source counts from the estimate before the allocation, and it has room for the bytes of the free and pending ids after it |
| Database.ListFits | environment/bbolt/tx.go:270-281 | what is left to store after the allocation fits, byte for byte, the pages asked for before it |
| Database.DB.Publish | environment/bbolt/tx.go:222-256 | the pages are on disk, no other page has changed, the new meta is the current one, and the older snapshots are still on record |
| Database.DB.Commit | environment/bbolt/tx.go:170-268 | the new meta has the next transaction id, the writer's blocks but for the old freelist's, and a freelist if wanted, whose block has room for and lists what is then free or pending; the tree's new pages hold their data and no page that was in use has changed; the readers stay, with their snapshots |
| Database.DB.Reopen | environment/bbolt/db.go:424-438 | is the protocol's step, with a new freelist object; the pages that no bucket reaches come in as a parameter |
| Database.LoadFreelist | environment/bbolt/db.go:424-438 | a fresh freelist with exactly these free pages, nothing pending and no readers |
| Openings.Open | environment/bbolt/db.go:424-438 | the freelist is read or, when none is stored, found by walking the buckets, and then it is the protocol's step of opening again; it panics exactly when none is stored and keys are out of order, and then changes nothing |
| Keys.SearchKeys | environment/bbolt/cursor.go:295-308 | the first index whose key is not below the wanted one, and whether that key is the wanted one, although the flag is set inside the search |
| Keys.LessIsLexicographic | environment/bbolt/cursor.go:295-308 | the order of bytes.Compare: the first byte that differs decides, and without one the shorter key is less |
| Nodes.Node.Put | environment/bbolt/node.go:117-142 | the inode takes the place of the one under the old key, or goes between its neighbours |
| Nodes.Node.Del | environment/bbolt/node.go:145-159 | exactly the inode with the key goes, and the mark is set exactly if there was one |
| Nodes.PutIsUpdate | environment/bbolt/node.go:117-142 | a put keeps the order and changes nothing under other keys |
| Nodes.DelIsRemoval | environment/bbolt/node.go:145-159 | a delete keeps the order and removes what has the key and nothing else |
| Nodes.Node.Size | environment/bbolt/node.go:41-48 | the serialized size |
| Nodes.NodeSizeIs | environment/bbolt/node.go:41-48 | sixteen bytes for the page header, and for each inode sixteen with its key and value |
| Nodes.Node.SizeLessThan | environment/bbolt/node.go:53-63 | whether the size is below the bound, an empty node counting as below any |
| Nodes.Node.SplitIndex | environment/bbolt/node.go:271-291 | the first cut that fills a page up to the threshold with at least two inodes on either side; the size returned is the size up to there if and only if the next inode passes the threshold |
| Nodes.OneTooMany | environment/bbolt/node.go:271-291 | five inodes for which the size returned is not that of the inodes before the index |
| Nodes.Node.SplitTwo | environment/bbolt/node.go:229-266 | no split exactly for at most four inodes or a node that fits; otherwise the two parts are the inodes up to and from the cut |
| Nodes.Node.Split | environment/bbolt/node.go:206-225 | ends, and cuts the inodes as the repeated split says |
| Nodes.SplitPartitions | environment/bbolt/node.go:206-225 | the pieces are the inodes in order; every piece but the last has at least two inodes and either fits the threshold or has exactly two; the last fits a page or has at most four |
| Nodes.SplitFills | environment/bbolt/node.go:206-291 | a node is left whole exactly when it has at most four inodes or less than a page; otherwise no page could take the first inode of the next one within the threshold, but for the three inodes that are kept back for the last |
| Nodes.BigPiecesFit | environment/bbolt/node.go:206-225 | a piece with more than four inodes fits a page |
| Nodes.SplitIsUnique | environment/bbolt/node.go:206-291 | the sizes determine the pieces |
| Cursors.Cursor.GoToFirstElementOnTheStack | environment/bbolt/cursor.go:169-187 | descends to a leaf without changing what lies ahead |
| Cursors.Cursor.GoToLastElementOnTheStack | environment/bbolt/cursor.go:190-211 | descends to a leaf without changing what lies up to here |
| Cursors.Cursor.First | environment/bbolt/cursor.go:35-61 | the first item of the tree, past empty leaves, with everything ahead; none exactly for an empty tree |
| Cursors.Cursor.Next | environment/bbolt/cursor.go:215-247 | the first of the items after the current one, past empty leaves; none exactly when there is none, and the cursor stays |
| Cursors.Cursor.Last | environment/bbolt/cursor.go:66-90 | the last item of the tree, with all others behind; none exactly for an empty tree |
| Cursors.Cursor.Prev | environment/bbolt/cursor.go:251-271 | one leaf position back, which may be an empty leaf: none exactly there and at the start; the item found is the last before the current one, and the stack runs empty exactly at the first leaf position of the tree |
| Cursors.Cursor.NSearch | environment/bbolt/cursor.go:339-358 | in a leaf, the position between the smaller keys and the others |
| Cursors.ChildFor | environment/bbolt/cursor.go:295-336 | the child between whose separators the key belongs |
| Cursors.Cursor.Search | environment/bbolt/cursor.go:274-336 | down to a leaf, such that all items behind are smaller than the key and all ahead are not |
| Cursors.Cursor.SeekLeaf | environment/bbolt/cursor.go:159-166 | the item at that position in the leaf, if any |
| Cursors.Cursor.Seek | environment/bbolt/cursor.go:120-136 | the least item at or above the key, or none, with exactly the items from there on ahead |
| Cursors.Cursor.KeyValue | environment/bbolt/cursor.go:361-378 | the item at the position, if the leaf has one there |
| Cursors.ForEach | environment/bbolt/bucket.go:580-591 | first and next enumerate exactly the items of the tree in order, on any tree without childless branches |
| Cursors.ForEachReverse | environment/bbolt/cursor.go:66-114 | on every tree: last and prev find, in reverse, the items back to the first empty leaf that has items after it; these are all items if and only if no empty leaf has items on both sides |
| Cursors.ReverseStops | environment/bbolt/cursor.go:251-271 | a tree with leaves of 1, nothing and 5, of which only 5 is found going back |
| Cursors.StretchIsAll | environment/bbolt/cursor.go:251-271 | all items come after the last empty leaf that has items behind it exactly when no empty leaf has items on both sides |
| Cursors.FilledHasNoGap | environment/bbolt/cursor.go:251-271 | a tree without empty pages has no such leaf |
| Cursors.PresentIsItems | environment/bbolt/cursor.go:251-271 | the leaf positions of a tree, without the empty leaves, are its items |
| Cursors.PositionSplits | environment/bbolt/cursor.go:215-271 | at every position the items are those behind followed by those ahead |
| Buckets.Bucket.constructor | environment/bbolt/bucket.go:47-54 | an empty bucket |
| Buckets.Bucket.Get | environment/bbolt/bucket.go:428-441 | the value of the item with the key, unless its first flag marks a nested bucket; none if no item has the key |
| Buckets.Bucket.Put | environment/bbolt/bucket.go:447-489 | done exactly for a key of 1 to 32768 bytes, a value of at most 2147483646, and no nested bucket under the key; the error for each other case, changing nothing; when done, the items are this one and those with other keys, in a tree that is still searchable |
| Buckets.Bucket.Delete | environment/bbolt/bucket.go:494-530 | done exactly if no nested bucket is under the key; otherwise the error, changing nothing; when done, the items are those with other keys, in a tree that is still searchable |
| Buckets.PutIsDone | environment/bbolt/bucket.go:464-482 | when the checks pass, by the sizes and the flags |
| Buckets.ReadAfterPut | environment/bbolt/bucket.go:428-489 | what is put is read, can be put again, and changes nothing that is read under any other key |
| Buckets.ReadAfterDelete | environment/bbolt/bucket.go:428-530 | what is deleted is not read any more, and nothing changes under any other key |
| Buckets.NestedStays | environment/bbolt/bucket.go:428-530 | a nested bucket is not read as a value, not overwritten and not deleted |
| Buckets.LeafItems | environment/bbolt/bucket.go:484-486 | an update of the leaf that the search found is an update of the whole bucket |
| Buckets.LeafKeepsOrder | environment/bbolt/bucket.go:484-486 | and keeps the separators right |
| KeyOrder.VerifyKeyOrder | environment/bbolt/tx_check.go:227-247 | each complaint exactly if it is due: below the separator, below or equal to the key before, or not below the next separator |
| KeyOrder.CheckKeyOrder | environment/bbolt/tx_check.go:185-221 | silent exactly if all comparisons of the recursion pass; returns the largest key as the code finds it |
| KeyOrder.SilenceMeansOrder | environment/bbolt/tx_check.go:185-221 | without empty pages: silent if and only if every subtree's keys lie between its separator and the next one and the keys of the whole tree rise strictly |
| KeyOrder.SilentIsOrdered | environment/bbolt/tx_check.go:180-184 | a silent check is all that a search needs |
| KeyOrder.SilenceIsSorted | environment/bbolt/tx_check.go:180-221 | for every tree on which the check is silent: its keys are sorted on each page if and only if the skipped comparisons hold, and then all keys rise strictly and every subtree is in its range |
| KeyOrder.GapsSilence | environment/bbolt/tx_check.go:185-221 | with the skipped comparisons, silence proves the order of the whole tree |
| KeyOrder.SortedHasNoGaps | environment/bbolt/tx_check.go:180-184 | where the keys are sorted on each page the skipped comparisons hold |
| KeyOrder.TracedSilence | environment/bbolt/tx_check.go:185-221 | when no child but the last of its branch ends in an empty leaf no comparison is skipped, and silence proves the order |
| KeyOrder.EmptyPageHidesDisorder | environment/bbolt/tx_check.go:185-221 | a tree with an empty page on which the check is silent, a skipped comparison fails and the keys descend |
| PageTrees.PagesByPath | environment/bbolt/tx_check.go:123-148 | the walk meets exactly the pages at the ends of paths, first by indexes of nested buckets and then by indexes of children, each page once for each path |
| PageTrees.BucketsByPath | environment/bbolt/tx_check.go:123-148 | and exactly the buckets at the ends of paths, once for each path |
| PageTrees.KeysByPath | environment/bbolt/tx_check.go:185-221 | the recursion over the keys sees at each path the keys of the page there |
| PageTrees.OtherByPath | environment/bbolt/tx_check.go:163-169 | a page of another type is found wherever it is |
| PageChecks.PageCheck.constructor | environment/bbolt/tx_check.go:42-58 | exactly the ids that the free list has twice are reported, and the pages of metas and freelist count as reached |
| PageChecks.PageCheck.Reference | environment/bbolt/tx_check.go:151-161 | exactly the ids of the block that were reached before are reported, and the block is reached |
| PageChecks.PageCheck.CheckType | environment/bbolt/tx_check.go:163-169 | a free first page, or else an unknown type, is reported |
| PageChecks.PageCheck.VerifyPageReachable | environment/bbolt/tx_check.go:150-170 | what is reported stays exactly what is due for the pages seen |
| PageChecks.PageCheck.ForEachPage | environment/bbolt/tx.go:589-608 | the pages are visited in preorder |
| PageChecks.PageCheck.CheckPageKeyOrder | environment/bbolt/tx_check.go:176-221 | a bucket is reported exactly if its keys do not pass or it has a page of another type |
| PageChecks.PageCheck.CheckBucket | environment/bbolt/tx_check.go:123-148 | a bucket's pages, its keys, then the buckets in it |
| PageChecks.DueIsByPath | environment/bbolt/tx_check.go:38-170 | what is due for the pages met is what is due by the paths: a page out of bounds, free, of a wrong type, or at the ends of two paths, a bucket with its keys out of order, a page at the end of no path |
| PageChecks.TakenAt | environment/bbolt/tx_check.go:50-58 | the pages taken as reached from the start are the metas and the block of the freelist |
| PageChecks.Check | environment/bbolt/tx_check.go:38-69 | every complaint that is due by the paths to the buckets and pages, and no other |
| PageChecks.FreePages | environment/bbolt/db.go:1247-1282 | panics exactly if anything is due by the paths; otherwise exactly the pages from 2 up to the high water mark that no path leads to, in order |
| PageChecks.SilenceIsOrder | environment/bbolt/tx_check.go:38-170 | the check is silent if and only if free list and blocks are without overlap as far as the check looks, the types and keys are right and every page is accounted for |
| PageChecks.SilenceMissesTails | environment/bbolt/tx_check.go:155-169 | the exact condition under which silence means that no page is both reached and free |
| PageChecks.FreedTailUnnoticed | environment/bbolt/tx_check.go:155-169 | a database with a page that is both, and a silent check |
| PageChecks.LossIsReported | environment/bbolt/tx_check.go:60-69 | in every reachable state between two writers, with the keys in order, the check complains of exactly the pages lost by rollbacks |
| PageChecks.UnreachedIsFree | environment/bbolt/db.go:1247-1282 | in every reachable state without a stored freelist, the pages that freepages finds are what a reopening needs, and it has a complaint if and only if keys are out of order |
| Levels.RewireKeeps | environment/bbolt/node.go:365-448 | replacing inodes of a branch by others over the same leaf items keeps the leaf sequence and the levels, and exchanges just those ids |
| Levels.CollapseKeeps | environment/bbolt/node.go:387-405 | a root that takes over its only child has the same leaves, one level up |
| Bounds.RewiredBounded | environment/bbolt/node.go:365-448 | the rewired branch keeps all keys within the bounds that lead to it |
| Bounds.RewireBounded | environment/bbolt/node.go:365-448 | and so does every node above it |
| Bounds.JoinBounded | environment/bbolt/node.go:418-445 | the union of two neighbours lies within the bounds of both |
| Bounds.SliceBounded | environment/bbolt/node.go:229-266 | a piece of a node lies within the bounds at which it was cut |
| Bounds.BoundedLeaves | environment/bbolt/node.go:365-448 | the items under a bounded node rise strictly, within its bounds |
| LeafEdits.ChosenBySearch | environment/bbolt/cursor.go:295-336 | the step back after the binary search leads to the kid between whose keys the wanted one belongs |
| LeafEdits.Choose | environment/bbolt/cursor.go:295-336 | the binary search of a branch, and the step back after it, choose that kid |
| LeafEdits.EditUnder | environment/bbolt/cursor.go:274-336 | the leaf at the end of the search lies between all smaller and all larger keys of the bucket, and other inodes under the key keep every bound |
| LeafEdits.EditKeeps | environment/bbolt/bucket.go:484-486 | such an edit keeps the node cache sound, its pages the same, and changes the items in that one place |
| LeafEdits.FoundThere | environment/bbolt/bucket.go:475-482 | what the leaf of the search has under the key is what the whole bucket has |
| Rebalance.MaterializeKeeps | environment/bbolt/bucket.go:856-894 | reading a page into the cache changes nothing that can be seen, and keeps the parent pointers right |
| Rebalance.MergeKeeps | environment/bbolt/node.go:408-447 | a merge or a drop keeps the node cache sound, the leaf sequence, and all page ids but the one given up |
| Rebalance.MergeEffect | environment/bbolt/node.go:418-447 | the merge of two siblings, with its kids handed over and the right one removed from its parent, keeps all that |
| Rebalance.DroppedMerges | environment/bbolt/node.go:408-415 | dropping an empty node is such a merge |
| Rebalance.CollapsedKeeps | environment/bbolt/node.go:386-405 | collapsing the root into its only child keeps all that, with one level less |
| Rebalance.ParentOf | environment/bbolt/node.go:82-85 | a cached node is in its parent under its own key |
| Rebalance.BranchHasInodes | environment/bbolt/node.go:417 | the parent of a node to be merged has a second child, so the assertion there never fires |
| Spill.SpillKeeps | environment/bbolt/node.go:295-361 | replacing a child by its pieces on new pages keeps the node cache sound and the leaf sequence, and exchanges its page for theirs |
| Spill.SpillRewires | environment/bbolt/node.go:313-345 | the parent then refers to the pieces by first key and page |
| Spill.SpillFits | environment/bbolt/node.go:313-345 | and the references fit between its other separators |
| Spill.FirstsAscend | environment/bbolt/node.go:313-345 | the first keys of the pieces rise |
| Spill.PutPiece | environment/bbolt/node.go:336-345 | putting the first piece under the node's key and the others under their own puts all of them in the place of the node, in order |
| Spill.RootWrittenKeeps | environment/bbolt/bucket.go:776-795 | writing the root to a new page keeps all that |
| Spill.RootPushedKeeps | environment/bbolt/node.go:232-249 | a new root above the old one keeps all that, with one level more |
| NodeCaches.NodeCache.constructor | environment/bbolt/bucket.go:47-54 | a bucket as it is opened: nothing cached, ready for edits |
| NodeCaches.NodeCache.OpenRoot | environment/bbolt/bucket.go:856-894 | the root is cached, and nothing that can be seen changes |
| NodeCaches.NodeCache.Node | environment/bbolt/bucket.go:856-894 | the page is in the cache as it was stored, or as it was cached before |
| NodeCaches.NodeCache.ChildAt | environment/bbolt/node.go:74-79 | the kid is cached under this parent, and nothing that can be seen changes |
| NodeCaches.NodeCache.ChildIndex | environment/bbolt/node.go:82-85 | the index of the kid in its parent |
| NodeCaches.NodeCache.Search | environment/bbolt/cursor.go:274-336 | the path of indexes by which the search goes, and the leaf at its end |
| NodeCaches.NodeCache.CursorNode | environment/bbolt/cursor.go:381-400 | that leaf, cached with everything above it, and nothing that can be seen changed |
| NodeCaches.NodeCache.Seek | environment/bbolt/cursor.go:159-166 | what the bucket has under the key, found in the leaf that the search ends in |
| NodeCaches.NodeCache.Put | environment/bbolt/bucket.go:447-489 | done exactly for a key and value of the right size and no nested bucket under the key; otherwise the error, changing nothing; when done, the items of the whole bucket with this one inserted |
| NodeCaches.NodeCache.Delete | environment/bbolt/bucket.go:494-530 | done exactly if no nested bucket is under the key; otherwise the error, changing nothing; when done, the items of the whole bucket without the key, and nothing at all happens without such a key |
| NodeCaches.NodeCache.CollapseRoot | environment/bbolt/node.go:386-405 | keeps the items and accounts for every page; the root has at least two inodes or is a leaf |
| NodeCaches.NodeCache.DropNode | environment/bbolt/node.go:408-415 | keeps the items and accounts for every page; the node is gone |
| NodeCaches.NodeCache.MergeWithSibling | environment/bbolt/node.go:417-447 | for the first kid with its right neighbour, for any other with its left one: the left of the two has the inodes of both and the page of the right one is given back; keeps the items and accounts for every page |
| NodeCaches.NodeCache.MergeNodes | environment/bbolt/node.go:418-445 | the left node has the inodes and kids of both, the right one is gone |
| NodeCaches.NodeCache.Splice | environment/bbolt/node.go:424-441 | the cache afterwards, node by node |
| NodeCaches.NodeCache.Rebalance | environment/bbolt/node.go:365-448 | a node without a mark is left alone, one with a mark that exceeds the threshold and has keys enough loses just the mark, and any other but the root is merged or dropped; through any chain of these and of collapses: ends, leaves no new mark, keeps the items, accounts for every page, and leaves every branch with at least two inodes, no empty node behind and every separator equal to its kid's key |
| NodeCaches.NodeCache.Settle | environment/bbolt/node.go:365-405 | exactly the cases without a merge: no mark, larger than the threshold with keys enough, or the root, which takes over its only child if it has but one |
| NodeCaches.NodeCache.RebalanceAll | environment/bbolt/bucket.go:846-853 | for the cached nodes in any order; afterwards no node is marked and no cached node but the root is empty |
| NodeCaches.NodeCache.Cut | environment/bbolt/node.go:206-225 | the pieces of a node, as split makes them |
| NodeCaches.NodeCache.Allocate | environment/bbolt/node.go:324 | an unused page id, with enough pages for the node and no page too many |
| NodeCaches.NodeCache.SpillNode | environment/bbolt/node.go:295-361 | the node is on new pages in pieces that have room there, its parent refers to each by first key and page, its old page is given back, and the items are the same |
| NodeCaches.NodeCache.WritePieces | environment/bbolt/node.go:315-345 | the loop over the pieces |
| NodeCaches.NodeCache.WritePiece | environment/bbolt/node.go:323-345 | one piece on a new page with room for it, and the parent's reference to it |
| NodeCaches.NodeCache.SpillChildren | environment/bbolt/node.go:304-311 | in any order that takes kids before parents, all nodes under the root are spilled |
| NodeCaches.NodeCache.GrowRoot | environment/bbolt/node.go:229-255 | a root that does not fit gets a new root above it that refers to its pieces |
| NodeCaches.NodeCache.SpillRoot | environment/bbolt/node.go:347-360 | ends; the root is on a page, with as many new levels as needed |
| NodeCaches.NodeCache.Spill | environment/bbolt/bucket.go:766-794 | afterwards nothing is cached, the root is on a new page, the old pages are still there, the items are the same, and every page is accounted for |
| NodeCaches.NodeCache.RebalanceAndSpill | environment/bbolt/tx.go:190-201 | a commit of the bucket: rebalance and spill together |
| NodeCaches.NodeCache.Transact | environment/bbolt/tx.go:190-201 | puts and deletes, failing ones included, and then the commit: the pages hold exactly the edited items, every page written has room, and no old page has changed |
| NodeCaches.AppliedIsLatest | environment/bbolt/bucket.go:447-530 | the edited items are a map: in order, with what the last edit of each key that did not fail left |
| NodeCaches.LastEditWins | environment/bbolt/bucket.go:447-530 | without the outcomes: after any edits, a key of the right size that held no nested bucket holds what the last edit of it put, or nothing after a delete |
| NodeCaches.UnnamedStay | environment/bbolt/bucket.go:447-530 | a key that no edit names holds what it held |
| NodeCaches.ReadsBack | environment/bbolt/node.go:295-361 | in the pages written every branch has at least two ascending references, each by the first key of a non-empty page |
| NodeCaches.BottomExists | environment/bbolt/node.go:304-311 | as long as anything under the root is cached, some cached node has no cached kid |
| StoredTrees.ItemsAreLeaves | environment/bbolt/cursor.go:215-247 | what a cursor enumerates is the leaf sequence of the pages and nodes |
| StoredTrees.TreeByPath | environment/bbolt/cursor.go:274-336 | the tree that cursors see has at each path the keys of the page or node there |
| StoredTrees.BoundedIsOrdered | environment/bbolt/cursor.go:274-336 | the bounds of the node cache are what a search needs |
| StoredTrees.CommittedTree | environment/bbolt/tx_check.go:185-221 | on committed pages a cursor finds the items in order, no leaf but an only one is empty, and the key order checker is silent |
| StoredTrees.TransactAndRead | environment/bbolt/tx.go:190-201 | what edits and a commit leave on the pages is what a cursor reads, a search relies on and the checker accepts |
| StoredTrees.AllocationIsUnused | environment/bbolt/node.go:324 | the block that the database hands out is unused in the bucket, so it is one of the choices that the node cache leaves open |
| BucketCommits.CommitBucket | environment/bbolt/tx.go:170-268 | a commit of a bucket whose new pages are written as the node cache has them: the next reader's cursor enumerates on disk exactly the bucket's items, in a tree that is fit for search, reverse iteration and the checker, and each open reader finds on its snapshot's pages what it found before |
| BucketCommits.HandedOver | environment/bbolt/tx.go:190-232 | after a transaction on the bucket, every page of its tree is one that was written, or was on disk and has not been given back |
| BucketCommits.TreeFrame | environment/bbolt/bucket.go:856-894 | the tree that a cursor sees depends on nothing but its own pages |
| BucketCommits.ReadersKeepTrees | environment/bbolt/db.go:792-837 | over every run, a reader finds the same trees on disk for as long as it is open |
| BucketCommits.LastCommitStays | environment/bbolt/tx.go:542-569 | over every run, until the next meta is written the last commit's trees are what is on disk, through page writes, rollbacks, crashes and reopenings |
| InodePages.WriteInodeToPage | environment/bbolt/internal/common/inode.go:70-105 | the page holds all inodes, even when they are read from the page that is written, as long as none is written past its own source; the end is the size of the node; no other byte changes |
| InodePages.WriteElement | environment/bbolt/internal/common/inode.go:82-101 | one element: its header, key and value, and no other byte |
| InodePages.WriteHeader | environment/bbolt/internal/common/inode.go:84-97 | the header of an element in the words of its kind, with the position relative to it |
| InodePages.ReadInodeFromPage | environment/bbolt/internal/common/inode.go:49-68 | each item points to the key and value that were written |
| InodePages.ReadElement | environment/bbolt/internal/common/inode.go:53-66 | one element, from its header |
| InodePages.RoundTrip | environment/bbolt/internal/common/inode.go:49-105 | what is written is read: flags, key and value of a leaf, page id and key of a branch |
| InodePages.EndsAtSize | environment/bbolt/node.go:41-48 | the bytes written end where the size of the node says |
| InodePages.WordIs | environment/bbolt/internal/common/inode.go:49-105 | words of two, four and eight bytes, the least byte first |
| InodePages.LeafLayout | environment/bbolt/internal/common/inode.go:82-101 | the bytes of a leaf page: at 16 + 16i the flags, the distance to the key and both lengths; there the key, and the value after it |
| InodePages.BranchLayout | environment/bbolt/internal/common/inode.go:82-101 | the bytes of a branch page: at 16 + 16i the distance to the key, its length and the page id; there the key |
| InodePages.StillMovable | environment/bbolt/internal/common/inode.go:70-105 | after the earlier elements are written, the bytes of the next are still where they were |
| Surgeon.ClearPageElements | environment/bbolt/internal/surgeon/surgeon.go:36-113 | each error exactly when it is due, changing nothing; otherwise header, overflow and size of the shortened page; elements from the middle leave exactly the others readable; a tail leaves the others readable if and only if they end within the pages written |
| Surgeon.ClearElements | environment/bbolt/internal/surgeon/surgeon.go:70-112 | the same for the part after the checks |
| Surgeon.Rewrite | environment/bbolt/internal/surgeon/surgeon.go:82-88 | the kept elements, written from the page they lie in, are exactly what the page then holds |
| Surgeon.Truncate | environment/bbolt/internal/surgeon/surgeon.go:73-81 | only the count changes, and the space used is that of the elements that stay |
| Surgeon.UsedSpaceInPage | environment/bbolt/internal/common/inode.go:107-115 | the size of a node with these inodes |
| Surgeon.MovesDown | environment/bbolt/internal/surgeon/surgeon.go:82-88 | no kept element moves towards the end of the page |
| Surgeon.KeptIsMovable | environment/bbolt/internal/surgeon/surgeon.go:82-88 | so each is written before or at where it is read from, and never over a later one |
| Surgeon.TailSurvives | environment/bbolt/internal/surgeon/surgeon.go:73-81 | the exact condition for the elements before a cut tail |
| Surgeon.TailCanBeLost | environment/bbolt/internal/surgeon/surgeon.go:73-81 | on every page of 256 items with a small first one, cutting the others loses it |
| Surgeon.LoseTail | environment/bbolt/internal/surgeon/surgeon.go:73-81 | such a page, accepted and damaged |
| Surgeon.OverflowSuffices | environment/bbolt/internal/surgeon/surgeon.go:91-99 | the new overflow covers the bytes written and no more than the page had |
| XRay.XRay.Traverse | environment/bbolt/internal/surgeon/xray.go:24-77 | ends on every finite file; fails if and only if the pages do not unfold to a finite tree of distinct, unvisited pages that the callback accepts; otherwise has visited exactly these |
| XRay.XRay.TraverseAll | environment/bbolt/internal/surgeon/xray.go:46-52 | the same for the loop over the references of a page |
| XRay.XRay.TraverseLeaf | environment/bbolt/internal/surgeon/xray.go:53-71 | the same for the buckets of a leaf, whose inline pages go to the callback |
| XRay.UnfoldsOnce | environment/bbolt/internal/surgeon/xray.go:24-77 | a page unfolds in one way only |
| XRay.WalkByType | environment/bbolt/internal/surgeon/xray.go:39-72 | a page unfolds to its references by its type: a meta to its root bucket, a branch to its children in order, a leaf to the buckets in it that have pages, in order, and any other page to nothing |
| XRay.NextByType | environment/bbolt/internal/surgeon/xray.go:39-72 | the pages that each type of page refers to |
| XRay.CyclesDoNotUnfold | environment/bbolt/internal/surgeon/xray.go:26-28 | a page from which a cycle can be reached does not unfold |
| XRay.Examine | environment/bbolt/internal/surgeon/xray.go:24-77 | fails if a cycle is reachable; when it does not fail, the callback has seen every reachable page once, and every inline page in them |
| XRay.SharedPageIsRefused | environment/bbolt/internal/surgeon/xray.go:26-28 | a page with two references and no cycle makes it fail |
| Compact.Compactor.Visit | environment/bbolt/compact.go:22-74 | commits first exactly when the bytes of the open transaction with those of this key and value would pass the limit; then creates the bucket with its sequence or puts the value, or stops at a conflict |
| Compact.Compactor.WalkBucket | environment/bbolt/compact.go:99-119 | an absent key ends up with the whole entry under it, nested buckets and sequences included |
| Compact.Compact | environment/bbolt/compact.go:8-83 | into an empty database the last commit holds exactly the source's buckets, sequences, keys and values; every bucket and value is put once, in order, and the bytes put by each transaction stay within the limit unless it puts a single item |
| Compact.PutInside | environment/bbolt/compact.go:52-74 | a put into a bucket that was just put is a put of the bucket with that item |

## Left out

- The memory map, file growth, locking of files and pages, syncing and the command line: foreign calls; the disk is a map from page ids to contents, and writing a page is one step.
- Meta checksums, validation, torn meta writes, failed syncs and falling back to an older meta: a meta write is one step that succeeds.
- Failing writes in the middle of a commit: a commit succeeds, or the process stops and the file is opened again. The freelist is not reloaded after a failed commit in the source either.
- Transaction ids that run out: `0 < id < 2^64 - 1` is a condition of the steps. A reader never has id 0, since both metas of a new file are written with ids 0 and 1.
- SharedFreelist.Freelist.Rollback: where the source panics (`shared.go:104-107`) the call has a condition, and so has `Freelist.Free`; `Isolation.FreeingNeverPanics` shows that they hold in every run.
- FreelistPages.Read: the ids on the page are distinct and above 1, as Write leaves them. The source loads a damaged list as it is.
- What lies in the overflow pages of a block: the protocol gives each page of a block a content of its own.
- Database.DB.Commit: the data of the tree's pages is a parameter. `BucketCommits.CommitBucket` is the commit with what a node cache holds as data.
- BucketCommits.CommitBucket: how the bytes of a page are read is a function given by the caller. That reading a page undoes writing it is `InodePages.RoundTrip`.
- BucketCommits.HandedOver: that the ids the node cache picked are blocks that the database handed out is a condition, since the node cache does not call the database; `StoredTrees.AllocationIsUnused` shows that the database's blocks are among its choices.
- Database.DB.Reopen: the pages that no bucket reaches are a parameter; `Openings.Open` finds them.
- Openings.Open: the tree of buckets is a parameter, whose pages are the blocks of the last commit, because the protocol does not look into pages.
- Nodes.Node.SplitTwo: does not create a missing parent, and has no list of children; `NodeCaches.NodeCache.GrowRoot` puts a parent above a root that is split.
- Nodes.Node.Split: like SplitTwo.
- NodeCaches.NodeCache.Allocate: takes any unused id instead of calling the database, because the node cache is modelled for one bucket at a time. `StoredTrees.AllocationIsUnused` shows that the database's blocks are such ids.
- NodeCaches.NodeCache.RebalanceAll: one bucket; the source goes on with its child buckets.
- NodeCaches.NodeCache.Spill: one bucket; the source spills its child buckets first and writes their headers.
- NodeCaches.NodeCache.RebalanceAndSpill: one bucket; the pages it frees and writes go to the database in `BucketCommits.HandedOver` and `BucketCommits.CommitBucket`.
- NodeCaches.NodeCache.Transact: like RebalanceAndSpill.
- StoredTrees.TransactAndRead: like RebalanceAndSpill.
- Nested buckets in the node cache, inline buckets as bytes, and materializing a nested bucket's header on spill: the header is a value like any other here. An inline root has page id 0 and spills to a page of its own.
- The list of children that a node keeps: only cached nodes have parent pointers, and the children are found through them. Spill takes kids before parents in any order, which includes the source's order of first keys.
- The fill percentage as a fraction: its products with the page size are given as integers.
- Statistics, loggers, and the errors for closed or read-only transactions.
- `DeleteBucket`, `MoveBucket`, `Inspect`, sequences within buckets, and `Cursor.Delete`: compositions of the operations that are modelled.
- Checking from a single page, and the text and stack of the checker's messages. The walk is over trees, since the source's own recursion does not end on a cycle.
- PageChecks.PageCheck.CheckPageKeyOrder: all complaints about the keys of one bucket are one diagnostic.
- PageChecks.Check: like CheckPageKeyOrder.
- PageChecks.LossIsReported: takes the order of the keys as given, because the protocol does not look into pages; `StoredTrees.CommittedTree` proves it of each bucket that is committed.
- `ClearFreelist` and the file accesses of the page surgeon: `ClearPageElements` ends with what is written back and whether the freelist must go.
- The sequence of the root bucket, which `Compact` does not copy, and the size limits of `Put` on copying, which the source database has already passed.
- Go slices as such: where appending may share memory, as in collecting ids for the freelist page, a new sequence is built.
