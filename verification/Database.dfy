// The database object of environment/bbolt/db.go with its read-write transaction from
// environment/bbolt/tx.go, on top of the freelist object. Each method is one step of module Protocol.
module Database {
  import opened Options
  import opened PageIds
  import opened Reclaim
  import opened Protocol
  import opened PendingLists
  import opened SharedFreelist
  import FreelistPages

  // Only transactions up to the last commit have been scanned for a range.
  ghost predicate ScannedUpTo(pending: map<Txid, TxPending>, m: Txid) {
    forall tid :: tid in pending && pending[tid].lastReleaseBegin != 0 ==> tid <= m
  }

  class DB {
    var meta0: Meta
    var meta1: Meta
    var disk: map<Pgid, Content>
    var rwtx: Option<Writer>
    var freelist: Freelist
    ghost var snaps: map<Txid, Snapshot>
    ghost var lost: set<Pgid>

    // A new database: two meta pages, an empty freelist page and an empty leaf page.
    constructor (useHashMap: bool)
      ensures Valid() && Initial(Abs()) && fresh(freelist) && fresh(Footprint(freelist.backend))
    {
      hide Inv, ListsOk, EntriesIn, BackendOk, FreeIds, PendingOk, ScanSound, Bounded;
      meta0 := Meta(0, 4, map[2 := 0, 3 := 0], Some(2));
      meta1 := Meta(1, 4, map[2 := 0, 3 := 0], Some(2));
      disk := map[2 := FreelistPage({}), 3 := TreePage([])];
      rwtx := None;
      freelist := new Freelist(useHashMap);
      lost := {};
      snaps := map[1 := Snapshot({2, 3}, map[2 := FreelistPage({}), 3 := TreePage([])], {})];
      new;
      InitialInv(Abs());
    }

    ghost predicate Consistent()
      reads this, freelist, Footprint(freelist.backend)
    {
      && (this as object) !in Footprint(freelist.backend)
      && freelist.Valid() && freelist.CacheAgrees() && freelist.ScansSound()
    }

    ghost function Abs(): State
      requires Consistent()
      reads this, freelist, Footprint(freelist.backend)
    {
      State(meta0, meta1, disk, freelist.Abs(), rwtx, snaps, lost)
    }

    ghost predicate Valid()
      reads this, freelist, Footprint(freelist.backend)
    {
      Consistent() && Inv(Abs()) && ScannedUpTo(freelist.pending, Abs().Current().txid)
    }

    // The newer of the two meta pages: the last commit, all of whose pages hold what was committed.
    method CurrentMeta() returns (m: Meta)
      requires Valid()
      ensures (m == meta0 || m == meta1) && meta0.txid <= m.txid && meta1.txid <= m.txid
      ensures m.txid in snaps && snaps[m.txid].pages == Protocol.Pages(m.blocks) && Intact(disk, snaps[m.txid])
      ensures m == Newer(meta0, meta1)
    {
      hide Inv, ListsOk, EntriesIn, BackendOk, FreeIds, PendingOk, ScanSound, Bounded, Intact, Protocol.Pages;
      NewestIsIntact(Abs());
      if meta0.txid > meta1.txid { return meta0; }
      return meta1;
    }

    // A reader registers the last commit.
    method BeginTx() returns (r: Txid)
      requires Valid()
      modifies freelist`readonlyTXIDs
      ensures Valid() && Next(old(Abs()), BeginRead, Abs()) && r == Abs().Current().txid
      ensures Abs().cat.readers == old(Abs().cat.readers) + multiset{r}
    {
      hide Inv, ListsOk, EntriesIn, BackendOk, FreeIds, PendingOk, ScanSound, Bounded;
      var m := CurrentMeta();
      r := m.txid;
      CommitIdInRange(Abs());
      ghost var s := Abs();
      freelist.AddReadonlyTXID(r);
      StepInv(s, BeginRead, Abs());
    }

    method RemoveTx(r: Txid)
      requires Valid() && r in Abs().cat.readers
      modifies freelist`readonlyTXIDs
      ensures Valid() && Next(old(Abs()), EndRead(r), Abs())
      ensures Abs().cat.readers == old(Abs().cat.readers) - multiset{r}
    {
      hide Inv, ListsOk, EntriesIn, BackendOk, FreeIds, PendingOk, ScanSound, Bounded;
      ghost var s := Abs();
      freelist.RemoveReadonlyTXID(r);
      StepInv(s, EndRead(r), Abs());
    }

    // A new writer first releases the pending pages that no reader needs.
    method BeginRWTx()
      requires Valid() && rwtx.None? && Abs().WriterId() < 0xFFFF_FFFF_FFFF_FFFF
      modifies this`rwtx, freelist`pending, freelist`readonlyTXIDs, Footprint(freelist.backend)
      ensures Valid() && Next(old(Abs()), BeginWrite, Abs())
    {
      hide Inv, ListsOk, EntriesIn, BackendOk, FreeIds, PendingOk, ScanSound, Released, Bounded;
      var m := CurrentMeta();
      ghost var s := Abs();
      NoneByWriter(s);
      freelist.ReleasePendingPages();
      rwtx := Some(Writer(m.hwm, m.blocks, false, None, map[], {}));
      StepInv(s, BeginWrite, Abs());
      KeysInRange(freelist.pending, s.cat.pending, m.txid);
    }

    // The writer gives up a block of the last commit.
    method FreePage(id: Pgid)
      requires Valid() && rwtx.Some? && !rwtx.value.writing && Abs().WriterId() < MAX_TXID
      requires id in rwtx.value.blocks && id in Abs().Current().blocks
      modifies this`rwtx, freelist`pending, freelist`allocs, freelist`cache
      ensures Valid() && Next(old(Abs()), Event.FreePage(id), Abs())
    {
      hide Inv, ListsOk, EntriesIn, BackendOk, FreeIds, PendingOk, ScanSound, Freed, Bounded, PageIdsOf, Interval, Appended;
      var m := CurrentMeta();
      ghost var s := Abs();
      FreeableBlock(s, id);
      ghost var before := freelist.pending;
      freelist.Free(m.txid + 1, id, m.blocks[id]);
      PendingBySound(before, m.txid + 1, m.txid);
      AppendedSound(m.txid + 1, PendingBy(before, m.txid + 1), id, if id in s.cat.allocs then s.cat.allocs[id] else 0, m.blocks[id] + 1);
      rwtx := Some(rwtx.value.(blocks := rwtx.value.blocks - {id}));
      StepInv(s, Event.FreePage(id), Abs());
    }

    // Hands a block of n pages to the writer, from the freelist or from beyond the high water mark.
    method Allocate(n: nat) returns (start: Pgid, ghost found: Pgid)
      requires Valid() && rwtx.Some? && !rwtx.value.writing && Abs().WriterId() < MAX_TXID && n > 0
      modifies this`rwtx, freelist`allocs, freelist`cache, Footprint(freelist.backend)
      ensures Valid() && Next(old(Abs()), Event.Allocate(n, found), Abs())
      ensures start == if found != 0 then found else old(rwtx).value.hwm
    {
      hide Inv, ListsOk, EntriesIn, BackendOk, FreeIds, PendingOk, ScanSound, Bounded, PageIdsOf, Interval, Allocated;
      var m := CurrentMeta();
      ghost var s := Abs();
      var pid := freelist.Allocate(m.txid + 1, n);
      found := pid;
      if pid != 0 {
        start := pid;
        rwtx := Some(rwtx.value.(blocks := rwtx.value.blocks[start := n - 1]));
      } else {
        start := rwtx.value.hwm;
        NothingAllocated(s.cat.free, n, Abs().cat.free);
        rwtx := Some(rwtx.value.(blocks := rwtx.value.blocks[start := n - 1], hwm := rwtx.value.hwm + n));
      }
      StepInv(s, Event.Allocate(n, found), Abs());
    }

    // The new pages are final and about to be written.
    method StartWriting(dirty: map<Pgid, Content>, fl: Option<Pgid>)
      requires Valid() && rwtx.Some? && !rwtx.value.writing
      requires dirty.Keys == NewPages(rwtx.value.blocks, Abs().Current().blocks)
      requires fl.Some? ==>
        && fl.value in rwtx.value.blocks && fl.value in dirty
        && dirty[fl.value] == FreelistPage(Abs().cat.free + PageIdsOf(Abs().cat.pending))
      modifies this`rwtx
      ensures Valid() && Next(old(Abs()), Event.StartWriting(dirty, fl), Abs())
    {
      hide Inv, ListsOk, EntriesIn, BackendOk, FreeIds, PendingOk, ScanSound, Bounded, PageIdsOf, NewPages;
      ghost var s := Abs();
      rwtx := Some(rwtx.value.(writing := true, freelist := fl, dirty := dirty, todo := dirty.Keys));
      StepInv(s, Event.StartWriting(dirty, fl), Abs());
    }

    method WritePage(id: Pgid)
      requires Valid() && rwtx.Some? && rwtx.value.writing && id in rwtx.value.todo && id in rwtx.value.dirty
      modifies this`rwtx, this`disk
      ensures Valid() && Next(old(Abs()), Event.WritePage(id), Abs())
      ensures rwtx == Some(old(rwtx).value.(todo := old(rwtx).value.todo - {id}))
      ensures disk == old(disk)[id := old(rwtx).value.dirty[id]]
    {
      hide Inv, ListsOk, EntriesIn, BackendOk, FreeIds, PendingOk, ScanSound, Bounded;
      ghost var s := Abs();
      disk := disk[id := rwtx.value.dirty[id]];
      rwtx := Some(rwtx.value.(todo := rwtx.value.todo - {id}));
      StepInv(s, Event.WritePage(id), Abs());
    }

    // Writes the remaining dirty pages in ascending order.
    method WritePages()
      requires Valid() && rwtx.Some? && rwtx.value.writing
      modifies this`rwtx, this`disk
      ensures Valid() && rwtx == Some(old(rwtx).value.(todo := {}))
      ensures WrittenBack(old(disk), disk, old(rwtx).value.dirty, old(rwtx).value.todo)
    {
      hide Inv, Next, ListsOk, EntriesIn, BackendOk, FreeIds, PendingOk, ScanSound, Bounded, WrittenBack, Ids, ScannedUpTo, StrictlySorted;
      TodoDirty(Abs());
      var w := rwtx.value;
      var pages := SortedIds(w.todo);
      ghost var done: set<Pgid> := {};
      NothingWritten(disk, w.dirty);
      assert w.todo - done == w.todo;
      for i := 0 to |pages|
        invariant Valid() && rwtx == Some(w.(todo := w.todo - done))
        invariant done == Ids(pages[..i]) && WrittenBack(old(disk), disk, w.dirty, done)
      {
        NextPage(pages, i);
        OneWritten(old(disk), disk, w.dirty, done, pages[i]);
        assert w.todo - done - {pages[i]} == w.todo - (done + {pages[i]});
        WritePage(pages[i]);
        done := done + {pages[i]};
      }
      assert pages[..|pages|] == pages && w.todo - done == {};
    }

    // Publishes the commit in the slot that does not hold the newest meta.
    method WriteMeta()
      requires Valid() && rwtx.Some? && rwtx.value.writing && rwtx.value.todo == {} && Abs().WriterId() < MAX_TXID
      modifies this`meta0, this`meta1, this`rwtx, this`snaps
      ensures Valid() && Next(old(Abs()), Event.WriteMeta, Abs())
    {
      hide Inv, Next, ListsOk, EntriesIn, BackendOk, FreeIds, PendingOk, ScanSound, Bounded, Pages, Intact;
      var m := CurrentMeta();
      ghost var s := Abs();
      CommitIdInRange(s);
      var w := rwtx.value;
      var meta := Meta(m.txid + 1, w.hwm, w.blocks, w.freelist);
      if meta.txid % 2 == 0 { meta0 := meta; } else { meta1 := meta; }
      rwtx := None;
      snaps := snaps[meta.txid := Snapshot(Pages(w.blocks), snaps[m.txid].disk + w.dirty, lost)];
      MetaSteps(s, Abs());
      StepInv(s, Event.WriteMeta, Abs());
      NewerMeta(s, Abs());
    }

    method Rollback()
      requires Valid() && rwtx.Some? && Abs().WriterId() < MAX_TXID
      modifies this`rwtx, this`lost, freelist`pending, freelist`allocs, freelist`cache
      ensures Valid() && Next(old(Abs()), Event.Rollback, Abs())
    {
      hide Inv, Next, ListsOk, EntriesIn, BackendOk, FreeIds, PendingOk, ScanSound, Bounded, RolledBack, NewPages, Usable;
      var m := CurrentMeta();
      ghost var s := Abs();
      NeverFreesOwn(s);
      freelist.Rollback(m.txid + 1);
      lost := lost + (NewPages(rwtx.value.blocks, m.blocks) * Usable(m.hwm));
      rwtx := None;
      RollbackSteps(s, Abs());
      StepInv(s, Event.Rollback, Abs());
    }

    // The freelist's old page goes, for a commit writes a new one.
    method FreeFreelist()
      requires Valid() && rwtx.Some? && !rwtx.value.writing && Abs().WriterId() < MAX_TXID
      requires Abs().Current().freelist.Some? ==> Abs().Current().freelist.value in rwtx.value.blocks
      modifies this`rwtx, freelist`pending, freelist`allocs, freelist`cache
      ensures Valid() && Unlisted(old(Abs()), Abs())
    {
      hide Inv, ListsOk, EntriesIn, BackendOk, FreeIds, PendingOk, ScanSound, Bounded, PageIdsOf, Freed, NewPages;
      var m := CurrentMeta();
      if m.freelist.Some? {
        ghost var s := Abs();
        OwnFreelist(s);
        NewPagesKept(s, m.freelist.value);
        FreePage(m.freelist.value);
      }
    }

    // A block for the freelist, and the ids to write there: allocating it has changed what is free.
    method CommitFreelist(pageSize: nat) returns (start: Pgid, n: nat, ids: set<Pgid>)
      requires Valid() && rwtx.Some? && !rwtx.value.writing && Abs().WriterId() < MAX_TXID && pageSize > 0
      modifies this`rwtx, freelist`allocs, freelist`cache, Footprint(freelist.backend)
      ensures Valid() && Listed(old(Abs()), Abs(), start, n, ids)
      ensures FreelistPages.FitsPages(|ids|, n * pageSize)
      ensures FreelistPages.AsksFor(|old(Abs()).cat.free + PageIdsOf(old(Abs()).cat.pending)|, pageSize, n)
    {
      hide Inv, ListsOk, EntriesIn, BackendOk, FreeIds, PendingOk, ScanSound, Bounded, PageIdsOf, Interval, NewPages, Allocated,
        FreelistPages.PagesAsked, FreelistPages.FitsPages, FreelistPages.AsksFor;
      ghost var s := Abs();
      n := FreelistPages.PagesToAsk(freelist, pageSize);
      ghost var found;
      start, found := Allocate(n);
      NewPagesAdded(s, n, found, Abs());
      ListFits(s, Abs(), pageSize, n, found);
      ids := IdsToStore();
    }

    method IdsToStore() returns (ids: set<Pgid>)
      requires freelist.Valid()
      ensures ids == freelist.Abs().free + PageIdsOf(freelist.Abs().pending)
    {
      hide ListsOk, EntriesIn, BackendOk, FreeIds, PendingOk, ScanSound, Bounded, PageIdsOf, Ids, StrictlySorted;
      var all := FreelistPages.AllIds(freelist);
      ids := Ids(all);
    }

    // Commit of a spilled transaction: the old freelist goes, the new one gets as many pages as estimated,
    // the pages are written, and the meta last.
    method Commit(data: map<Pgid, Content>, pageSize: nat, sync: bool)
      requires Valid() && rwtx.Some? && !rwtx.value.writing && Abs().WriterId() < MAX_TXID && pageSize > 0
      requires data.Keys == NewPages(rwtx.value.blocks, Abs().Current().blocks)
      requires Abs().Current().freelist.Some? ==> Abs().Current().freelist.value in rwtx.value.blocks
      modifies this, freelist`pending, freelist`allocs, freelist`cache, Footprint(freelist.backend)
      ensures Valid() && Committed(old(Abs()), Abs(), data, pageSize, sync) && freelist == old(freelist)
    {
      hide Inv, Next, ListsOk, EntriesIn, BackendOk, FreeIds, PendingOk, ScanSound, Bounded, PageIdsOf, Interval, NewPages, Committed;
      ghost var s0 := Abs();
      FreeFreelist();
      ghost var s1 := Abs();
      if sync {
        var start, n, ids := CommitFreelist(pageSize);
        ghost var s2 := Abs();
        StartIsNew(start, n);
        var dirty := data + map p | p in Interval(start, n) :: FreelistPage(ids);
        Publish(dirty, Some(start));
        SyncedCommit(s0, s1, s2, Abs(), data, pageSize, start, n, ids);
      } else {
        Publish(data, None);
      }
      CommittedBy(s0, s1, Abs(), data, pageSize);
    }

    // The pages first, the meta last.
    method Publish(dirty: map<Pgid, Content>, fl: Option<Pgid>)
      requires Valid() && rwtx.Some? && !rwtx.value.writing && Abs().WriterId() < MAX_TXID
      requires dirty.Keys == NewPages(rwtx.value.blocks, Abs().Current().blocks)
      requires fl.Some? ==>
        && fl.value in rwtx.value.blocks && fl.value in dirty
        && dirty[fl.value] == FreelistPage(Abs().cat.free + PageIdsOf(Abs().cat.pending))
      modifies this`meta0, this`meta1, this`rwtx, this`snaps, this`disk
      ensures Valid() && Published(old(Abs()), Abs(), dirty, fl)
    {
      hide Inv, Next, ListsOk, EntriesIn, BackendOk, FreeIds, PendingOk, ScanSound, Bounded, PageIdsOf, Interval, NewPages, WrittenBack, Published;
      ghost var before := Abs();
      StartWriting(dirty, fl);
      WritingStarted(before, dirty, fl, Abs());
      WritePages();
      ghost var written := Abs();
      WriteMeta();
      MetaWritten(written, Abs());
      PublishedBy(before, written, Abs(), dirty, fl);
    }

    // A crash, or a close, and an opening: the freelist is read from its page or, when there is none, made
    // of the pages that the buckets do not reach.
    method Reopen(useHashMap: bool, unreached: seq<Pgid>)
      requires Valid()
      requires Abs().Current().freelist.None? ==>
        StrictlySorted(unreached) && Ids(unreached) == Usable(Abs().Current().hwm) - Protocol.Pages(Abs().Current().blocks)
      modifies this`freelist, this`rwtx, this`lost
      ensures Valid() && Next(old(Abs()), Event.Reopen, Abs())
      ensures fresh(freelist) && fresh(Footprint(freelist.backend))
    {
      hide Inv, Next, ListsOk, EntriesIn, BackendOk, FreeIds, PendingOk, ScanSound, Bounded, PageIdsOf, Ids, Pages, Usable, StrictlySorted, Intact;
      var m := CurrentMeta();
      ghost var s := Abs();
      FreelistOnDisk(s);
      var ids := unreached;
      if m.freelist.Some? { ids := SortedIds(disk[m.freelist.value].ids); }
      IdsAreUsable(s, ids);
      var loaded := LoadFreelist(useHashMap, ids);
      freelist := loaded;
      rwtx := None;
      lost := if m.freelist.Some? then snaps[m.txid].lost else {};
      Reopened(s, Ids(ids), Abs());
      StepInv(s, Event.Reopen, Abs());
    }
  }

  // loadFreelist, with the ids that were stored or, failing that, found.
  method LoadFreelist(useHashMap: bool, ids: seq<Pgid>) returns (f: Freelist)
    requires StrictlySorted(ids) && forall id :: id in ids ==> id > 1
    ensures fresh(f) && fresh(Footprint(f.backend)) && f.Valid() && f.CacheAgrees() && f.ScansSound()
    ensures f.Abs() == Catalog(Ids(ids), {}, map[], multiset{}) && f.pending == map[]
  {
    hide ListsOk, EntriesIn, BackendOk, FreeIds, PendingOk, ScanSound, Bounded, PageIdsOf, Ids, StrictlySorted;
    f := new Freelist(useHashMap);
    NothingPending();
    f.ValidLoads();
    f.Init(ids);
  }

  lemma Reopened(s: State, free: set<Pgid>, t: State)
    requires Inv(s)
    requires var m := s.Current();
      && t == s.(cat := Catalog(free, {}, map[], multiset{}), writer := None, lost := t.lost)
      && m.txid in s.snaps && (m.freelist.Some? ==> m.freelist.value in s.disk && s.disk[m.freelist.value].FreelistPage?)
      && (m.freelist.Some? ==> free == s.disk[m.freelist.value].ids && t.lost == s.snaps[m.txid].lost)
      && (m.freelist.None? ==> free == Usable(m.hwm) - Protocol.Pages(m.blocks) && t.lost == {})
    ensures Next(s, Event.Reopen, t)
  {
  }

  // The freelist's old block is freed.
  ghost predicate Unlisted(s: State, t: State) {
    && s.writer.Some? && t.writer.Some? && !t.writer.value.writing
    && t.cat.readers == s.cat.readers && t.Current() == s.Current() && t.disk == s.disk && t.snaps == s.snaps
    && t.writer.value.blocks == (if s.Current().freelist.Some? then s.writer.value.blocks - {s.Current().freelist.value} else s.writer.value.blocks)
    && NewPages(t.writer.value.blocks, t.Current().blocks) == NewPages(s.writer.value.blocks, s.Current().blocks)
  }

  // A new block is allocated for these ids.
  ghost predicate Listed(s: State, t: State, start: Pgid, n: nat, ids: set<Pgid>) {
    && s.writer.Some? && t.writer.Some? && !t.writer.value.writing && n > 0
    && t.cat.readers == s.cat.readers && t.Current() == s.Current() && t.disk == s.disk && t.snaps == s.snaps
    && ids == t.cat.free + PageIdsOf(t.cat.pending)
    && start !in s.writer.value.blocks && t.writer.value.blocks == s.writer.value.blocks[start := n - 1]
    && NewPages(t.writer.value.blocks, t.Current().blocks) == NewPages(s.writer.value.blocks, s.Current().blocks) + Interval(start, n)
    && Interval(start, n) !! NewPages(s.writer.value.blocks, s.Current().blocks)
  }

  // The pages and the meta are on disk.
  ghost predicate Published(s: State, t: State, dirty: map<Pgid, Content>, fl: Option<Pgid>) {
    && s.writer.Some? && t.writer.None? && t.cat == s.cat && s.Current().txid < MAX_TXID
    && t.Current() == Meta(s.Current().txid + 1, s.writer.value.hwm, s.writer.value.blocks, fl)
    && dirty.Keys == NewPages(s.writer.value.blocks, s.Current().blocks)
    && (forall p :: p in dirty ==> p in t.disk && t.disk[p] == dirty[p])
    && (forall p :: p !in dirty ==> (p in t.disk <==> p in s.disk) && (p in t.disk ==> t.disk[p] == s.disk[p]))
    && SnapsKept(s, t)
  }

  // The snapshots so far are still on record.
  ghost predicate SnapsKept(s: State, t: State) {
    forall r :: r in s.snaps && r <= s.Current().txid ==> r in t.snaps && t.snaps[r] == s.snaps[r]
  }

  lemma PublishedBy(s: State, t: State, u: State, dirty: map<Pgid, Content>, fl: Option<Pgid>)
    requires s.writer.Some? && t.writer.Some? && s.Current().txid < MAX_TXID && WrittenBack(s.disk, t.disk, dirty, dirty.Keys)
    requires t.cat == s.cat && t.Current() == s.Current()
    requires t.writer == Some(s.writer.value.(writing := true, freelist := fl, dirty := dirty, todo := {}))
    requires u.Current() == Meta(t.Current().txid + 1, t.writer.value.hwm, t.writer.value.blocks, t.writer.value.freelist)
    requires u.writer.None? && u.disk == t.disk && u.cat == t.cat
    requires dirty.Keys == NewPages(s.writer.value.blocks, s.Current().blocks) && t.snaps == s.snaps && SnapsKept(t, u)
    ensures Published(s, u, dirty, fl)
  {
  }

  // All of it: the new meta has the writer's tree, with another freelist if any, which lists what is free
  // or pending; the tree's new pages hold their data, and no other page has changed; and the readers stay,
  // with their snapshots.
  ghost predicate Committed(s: State, t: State, data: map<Pgid, Content>, pageSize: nat, sync: bool) {
    && s.writer.Some? && t.writer.None? && t.cat.readers == s.cat.readers
    && t.Current().txid == s.Current().txid + 1 && (t.Current().freelist.Some? <==> sync)
    && (sync ==> ListsFree(t, t.Current().freelist.value, pageSize))
    && TreeTaken(s.writer.value.blocks, s.Current().freelist, t.Current().blocks, t.Current().freelist)
    && (forall p :: p in data ==> p in t.disk && t.disk[p] == data[p])
    && OthersKept(s, t, NewPages(t.Current().blocks, s.Current().blocks)) && SnapsKept(s, t)
  }

  // The blocks are the same but for those of the freelists.
  ghost predicate TreeTaken(before: Blocks, oldList: Option<Pgid>, after: Blocks, newList: Option<Pgid>) {
    && (forall id :: id in before && oldList != Some(id) ==> id in after && after[id] == before[id])
    && (forall id :: id in after ==> id in before || newList == Some(id))
    && (oldList.Some? && oldList != newList ==> oldList.value !in after)
  }

  ghost predicate OthersKept(s: State, t: State, pages: set<Pgid>) {
    forall p :: p in s.disk && p !in pages ==> p in t.disk && t.disk[p] == s.disk[p]
  }

  // The freelist page lists what is free or pending, and its block has room for it.
  ghost predicate ListsFree(s: State, p: Pgid, pageSize: nat) {
    var ids := s.cat.free + PageIdsOf(s.cat.pending);
    && p in s.disk && s.disk[p] == FreelistPage(ids)
    && p in s.Current().blocks && FreelistPages.FitsPages(|ids|, (s.Current().blocks[p] + 1) * pageSize)
  }

  lemma SyncedCommit(s0: State, s1: State, s2: State, t: State, data: map<Pgid, Content>, pageSize: nat, start: Pgid, n: nat, ids: set<Pgid>)
    requires FreelistPages.FitsPages(|ids|, n * pageSize)
    requires Unlisted(s0, s1) && Listed(s1, s2, start, n, ids) && data.Keys == NewPages(s1.writer.value.blocks, s1.Current().blocks)
    requires Published(s2, t, data + map p | p in Interval(start, n) :: FreelistPage(ids), Some(start))
    ensures Committed(s0, t, data, pageSize, true)
  {
    hide NewPages, PageIdsOf, FreelistPages.FitsPages, Interval, ListsFree, OthersKept, TreeTaken;
    TakenWithList(s0.writer.value.blocks, s0.Current().freelist, s1.writer.value.blocks, start, n);
    var dirty := data + map p | p in Interval(start, n) :: FreelistPage(ids);
    FreelistWritten(s2, t, data, pageSize, start, n, ids);
    assert OthersKept(s0, t, dirty.Keys) by { OthersByDirty(s2, t, dirty); OthersFrom(s0, s2, t, dirty.Keys); }
    assert forall p :: p in data ==> p in dirty && dirty[p] == data[p];
  }

  lemma FreelistWritten(s: State, t: State, data: map<Pgid, Content>, pageSize: nat, start: Pgid, n: nat, ids: set<Pgid>)
    requires n > 0 && s.writer.Some? && ids == s.cat.free + PageIdsOf(s.cat.pending) && FreelistPages.FitsPages(|ids|, n * pageSize)
    requires start in s.writer.value.blocks && s.writer.value.blocks[start] == n - 1
    requires Published(s, t, data + map p | p in Interval(start, n) :: FreelistPage(ids), Some(start))
    ensures ListsFree(t, start, pageSize)
  {
    hide NewPages, PageIdsOf, FreelistPages.FitsPages, Interval;
    StartIsNew(start, n);
    var dirty := data + map p | p in Interval(start, n) :: FreelistPage(ids);
    assert dirty[start] == FreelistPage(ids);
  }

  lemma TakenWithList(before: Blocks, oldList: Option<Pgid>, without: Blocks, start: Pgid, n: nat)
    requires without == (if oldList.Some? then before - {oldList.value} else before) && start !in without && n > 0
    ensures TreeTaken(before, oldList, without[start := n - 1], Some(start))
  {
  }

  lemma OthersByDirty(s: State, t: State, dirty: map<Pgid, Content>)
    requires forall p :: p !in dirty ==> (p in t.disk <==> p in s.disk) && (p in t.disk ==> t.disk[p] == s.disk[p])
    ensures OthersKept(s, t, dirty.Keys)
  {
  }

  lemma OthersFrom(s: State, t: State, u: State, pages: set<Pgid>)
    requires t.disk == s.disk && OthersKept(t, u, pages)
    ensures OthersKept(s, u, pages)
  {
  }

  lemma CommittedBy(s0: State, s1: State, t: State, data: map<Pgid, Content>, pageSize: nat)
    requires Unlisted(s0, s1)
    ensures Published(s1, t, data, None) ==> Committed(s0, t, data, pageSize, false)
  {
    hide NewPages, PageIdsOf;
  }

  lemma RollbackSteps(s: State, t: State)
    requires s.writer.Some? && s.WriterId() < MAX_TXID
    requires t == s.(cat := RolledBack(s.cat, s.WriterId()), writer := None,
      lost := s.lost + (NewPages(s.writer.value.blocks, s.Current().blocks) * Usable(s.Current().hwm)))
    ensures Next(s, Event.Rollback, t)
  {
  }

  lemma NewestIsIntact(s: State)
    requires Inv(s)
    ensures var m := s.Current(); m.txid in s.snaps && s.snaps[m.txid].pages == Protocol.Pages(m.blocks) && Intact(s.disk, s.snaps[m.txid])
  {
    hide CatalogOk, WriterOk, WritingOk, Accounted, StoredOk, Intact, Visible;
    assert s.Current().txid in s.Open();
  }

  // What is left to store after the allocation fits the pages asked for before it.
  lemma ListFits(s: State, t: State, pageSize: nat, n: nat, found: Pgid)
    requires Inv(s) && Next(s, Allocate(n, found), t) && pageSize > 0
    requires n == FreelistPages.PagesAsked(|s.cat.free + PageIdsOf(s.cat.pending)|, pageSize)
    ensures FreelistPages.FitsPages(|t.cat.free + PageIdsOf(t.cat.pending)|, n * pageSize)
  {
    hide OpenOk, WriterOk, WritingOk, Accounted, StoredOk, PageIdsOf, Allocated, Usable, FreelistPages.EstimatedSize, FreelistPages.FitsPages;
    FreelistPages.EstimateSuffices(s.cat, pageSize, found, t.cat.free);
  }

  lemma MetaSteps(s: State, t: State)
    requires s.writer.Some? && s.writer.value.writing && s.writer.value.todo == {} && s.WriterId() < MAX_TXID && s.Current().txid in s.snaps
    requires var w, m := s.writer.value, s.Current();
      var meta := Meta(m.txid + 1, w.hwm, w.blocks, w.freelist);
      t == s.(meta0 := if meta.txid % 2 == 0 then meta else s.meta0, meta1 := if meta.txid % 2 == 1 then meta else s.meta1,
        writer := None, snaps := s.snaps[meta.txid := Snapshot(Protocol.Pages(w.blocks), s.snaps[m.txid].disk + w.dirty, s.lost)])
    ensures Next(s, Event.WriteMeta, t)
  {
  }

  lemma OwnFreelist(s: State)
    requires Inv(s) && s.Current().freelist.Some?
    ensures s.Current().freelist.value in s.Current().blocks
  {
    hide OpenOk, CatalogOk, WriterOk, WritingOk, Accounted;
  }

  lemma StartIsNew(start: Pgid, n: nat)
    requires n > 0
    ensures start in Interval(start, n)
  {
  }

  lemma WritingStarted(s: State, dirty: map<Pgid, Content>, fl: Option<Pgid>, t: State)
    requires Next(s, StartWriting(dirty, fl), t)
    ensures s.writer.Some? && t == s.(writer := Some(s.writer.value.(writing := true, freelist := fl, dirty := dirty, todo := dirty.Keys)))
  {
  }

  lemma MetaWritten(s: State, t: State)
    requires Inv(s) && Next(s, WriteMeta, t)
    ensures t.Current() == Meta(s.Current().txid + 1, s.writer.value.hwm, s.writer.value.blocks, s.writer.value.freelist)
    ensures t.writer.None? && t.disk == s.disk && t.cat == s.cat && SnapsKept(s, t)
  {
    hide OpenOk, CatalogOk, WriterOk, WritingOk, Accounted, StoredOk;
    MetaSlot(s, t);
  }

  // The ids that the freelist is restored from are no metas.
  lemma FreelistOnDisk(s: State)
    requires Inv(s)
    ensures var m := s.Current(); m.txid in s.snaps && (m.freelist.Some? ==>
      m.freelist.value in s.disk && s.disk[m.freelist.value].FreelistPage? && s.disk[m.freelist.value].ids <= Usable(m.hwm))
  {
    hide CatalogOk, WriterOk, WritingOk, Accounted, Visible, Usable;
    var m := s.Current();
    assert m.txid in s.Open();
    if m.freelist.Some? { BlockWithin(m.blocks, m.freelist.value, m.hwm); }
  }

  lemma IdsAreUsable(s: State, ids: seq<Pgid>)
    requires Ids(ids) <= Usable(s.Current().hwm)
    ensures forall id :: id in ids ==> id > 1
  {
    assert forall id :: id in ids ==> id in Ids(ids);
  }

  lemma NothingPending()
    ensures PageIdsOf({}) == {}
  {
  }

  // The dirty pages ids have been written, and nothing else.
  ghost predicate WrittenBack(before: map<Pgid, Content>, after: map<Pgid, Content>, dirty: map<Pgid, Content>, ids: set<Pgid>) {
    && ids <= dirty.Keys
    && (forall p :: p in ids ==> p in after && after[p] == dirty[p])
    && (forall p :: p !in ids ==> (p in after <==> p in before) && (p in before ==> after[p] == before[p]))
  }

  lemma NothingWritten(disk: map<Pgid, Content>, dirty: map<Pgid, Content>)
    ensures WrittenBack(disk, disk, dirty, {})
  {
  }

  lemma OneWritten(before: map<Pgid, Content>, after: map<Pgid, Content>, dirty: map<Pgid, Content>, ids: set<Pgid>, p: Pgid)
    requires WrittenBack(before, after, dirty, ids) && p in dirty
    ensures WrittenBack(before, after[p := dirty[p]], dirty, ids + {p})
  {
  }

  lemma NextPage(pages: seq<Pgid>, i: nat)
    requires StrictlySorted(pages) && i < |pages|
    ensures pages[i] in Ids(pages) && pages[i] !in Ids(pages[..i]) && Ids(pages[..i + 1]) == Ids(pages[..i]) + {pages[i]}
  {
  }

  lemma FreeableBlock(s: State, id: Pgid)
    requires Inv(s) && s.writer.Some? && id in s.writer.value.blocks && id in s.Current().blocks
    ensures id > 1 && Interval(id, s.Current().blocks[id] + 1) !! s.cat.free + PageIdsOf(s.cat.pending)
    ensures id in s.cat.allocs ==> s.cat.allocs[id] <= s.WriterId()
  {
    hide OpenOk, WritingOk, Accounted, WriterOk;
    SameBlock(s, id);
  }

  lemma PendingBySound(pending: map<Txid, TxPending>, txid: Txid, m: Txid)
    requires ListsOk(pending) && ScannedUpTo(pending, m) && m < txid
    requires forall tid :: tid in pending ==> ScanSound(tid, pending[tid])
    ensures var txp := PendingBy(pending, txid);
      |txp.ids| == |txp.alloctx| && txp.lastReleaseBegin == 0 && ScanSound(txid, txp)
  {
  }

  lemma NothingAllocated(free: set<Pgid>, n: nat, left: set<Pgid>)
    requires Allocated(free, n, 0, left)
    ensures left == free
  {
  }

  lemma TodoDirty(s: State)
    requires Inv(s) && s.writer.Some? && s.writer.value.writing
    ensures s.writer.value.todo <= s.writer.value.dirty.Keys
  {
    hide OpenOk, CatalogOk, WriterOk, Accounted, StoredOk;
  }

  lemma NewerMeta(s: State, t: State)
    requires Inv(s) && Next(s, WriteMeta, t)
    ensures s.Current().txid <= t.Current().txid
  {
    hide OpenOk, CatalogOk, WriterOk, WritingOk, Accounted, StoredOk;
    MetaSlot(s, t);
  }

  lemma NoneByWriter(s: State)
    requires Inv(s) && s.writer.None?
    ensures forall e :: e in s.cat.pending ==> e.freed <= s.Current().txid
  {
    hide OpenOk, WriterOk, WritingOk, Accounted, StoredOk;
  }

  // Without pages freed by the writer, all lists belong to committed transactions.
  lemma KeysInRange(pending: map<Txid, TxPending>, entries: set<PendingPage>, m: Txid)
    requires ListsOk(pending) && EntriesIn(pending) <= entries && forall e :: e in entries ==> e.freed <= m
    ensures forall tid :: tid in pending ==> tid <= m
  {
    forall tid | tid in pending ensures tid <= m {
      ListHasEntry(pending, tid);
    }
  }

  lemma CommitIdInRange(s: State)
    requires Inv(s)
    ensures 0 < s.Current().txid < MAX_TXID && s.Current().txid in s.snaps
  {
    hide OpenOk, CatalogOk, WriterOk, WritingOk, Accounted, StoredOk;
  }
}
