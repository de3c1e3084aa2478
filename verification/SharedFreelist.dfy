// The part of the freelist that both backends share, environment/bbolt/internal/freelist/shared.go.
// The object is proved against the values of module Reclaim.
module SharedFreelist {
  import opened PageIds
  import opened Reclaim
  import opened PendingLists
  import ArrayFreelist
  import HashMapFreelist

  // The embedded interface value: which backend holds the free ids.
  datatype Backend = ArrayBackend(array: ArrayFreelist.Array) | HashMapBackend(hashMap: HashMapFreelist.HashMap)

  // The footprint and the free ids of a backend.
  function Footprint(b: Backend): set<object> {
    match b
    case ArrayBackend(a) => {a}
    case HashMapBackend(h) => {h}
  }

  ghost predicate BackendOk(b: Backend)
    reads Footprint(b)
  {
    match b
    case ArrayBackend(a) => a.Valid()
    case HashMapBackend(h) => h.Valid()
  }

  ghost function FreeIds(b: Backend): set<Pgid>
    reads Footprint(b)
  {
    match b
    case ArrayBackend(a) => a.Free()
    case HashMapBackend(h) => h.Free()
  }

  class Freelist {
    var readonlyTXIDs: seq<Txid>
    var allocs: map<Pgid, Txid>
    var cache: set<Pgid>
    var pending: map<Txid, TxPending>
    const backend: Backend

    constructor (useHashMap: bool)
      ensures Valid() && CacheAgrees() && ScansSound() && fresh(Footprint(backend))
      ensures backend.HashMapBackend? <==> useHashMap
      ensures Abs() == Catalog({}, {}, map[], multiset{}) && pending == map[]
    {
      readonlyTXIDs, allocs, cache, pending := [], map[], {}, map[];
      if useHashMap {
        var h := new HashMapFreelist.HashMap();
        backend := HashMapBackend(h);
      } else {
        var a := new ArrayFreelist.Array();
        backend := ArrayBackend(a);
      }
    }

    ghost predicate Valid()
      reads this, Footprint(backend)
    {
      && (this as object) !in Footprint(backend)
      && BackendOk(backend) && ListsOk(pending) && Bounded(readonlyTXIDs, pending.Keys)
      && PendingOk(EntriesIn(pending), FreeIds(backend))
    }

    // Like Valid, as long as the free pages are being loaded: pending ones may be among them.
    ghost predicate Loading()
      reads this, Footprint(backend)
    {
      && (this as object) !in Footprint(backend)
      && BackendOk(backend) && ListsOk(pending) && Bounded(readonlyTXIDs, pending.Keys)
      && PendingOk(EntriesIn(pending), {})
    }

    lemma ValidLoads()
      requires Valid()
      ensures Loading() && PendingOnce(EntriesIn(pending))
    {
      hide ListsOk, BackendOk, FreeIds, EntriesIn, Bounded;
    }

    // What the freelist stands for.
    ghost function Abs(): Catalog
      requires ListsOk(pending)
      reads this, Footprint(backend)
    {
      Catalog(FreeIds(backend), EntriesIn(pending), allocs, multiset(readonlyTXIDs))
    }

    // The lookup table of free and pending pages is up to date.
    ghost predicate CacheAgrees()
      requires ListsOk(pending)
      reads this, Footprint(backend)
    {
      cache == FreeIds(backend) + PageIdsOf(EntriesIn(pending))
    }

    ghost predicate ScansSound()
      reads this
    {
      forall tid :: tid in pending ==> ScanSound(tid, pending[tid])
    }

    method MergeSpans(ids: seq<Pgid>)
      requires BackendOk(backend) && Distinct(ids)
      requires forall id :: id in ids ==> id > 1 && id !in FreeIds(backend)
      modifies Footprint(backend)
      ensures BackendOk(backend) && FreeIds(backend) == old(FreeIds(backend)) + Ids(ids)
    {
      match backend
      case ArrayBackend(a) => a.MergeSpans(ids);
      case HashMapBackend(h) => h.MergeSpans(ids);
    }

    // The collected pages go to the backend.
    method MergeCollected(m: seq<Pgid>, ghost all: set<PendingPage>)
      requires BackendOk(backend) && ListsOk(pending)
      requires PendingOk(all, FreeIds(backend)) && Collected(all, EntriesIn(pending), m)
      modifies Footprint(backend)
      ensures BackendOk(backend) && PendingOk(EntriesIn(pending), FreeIds(backend))
      ensures FreeIds(backend) == old(FreeIds(backend)) + PageIdsOf(all - EntriesIn(pending))
    {
      hide Collected, EntriesOf, EntriesIn, Ids, PageIdsOf, PendingOk, BackendOk, FreeIds;
      CollectedFree(all, EntriesIn(pending), m, FreeIds(backend));
      MergeSpans(m);
    }

    // Moves all pages freed by txid or an older transaction to the freelist.
    method Release(txid: Txid)
      requires Valid()
      modifies this`pending, Footprint(backend)
      ensures Valid()
      ensures Abs() == Moved(old(Abs()), set e | e in old(Abs()).pending && e.freed <= txid)
      ensures forall tid :: tid in pending ==> tid in old(pending) && pending[tid] == old(pending)[tid]
    {
      hide Collected, EntriesOf, EntriesIn, Ids, PageIdsOf, PendingOk, BackendOk, FreeIds;
      var m: seq<Pgid> := [];
      ghost var all, was := EntriesIn(pending), pending;
      CollectNone(all);
      PendingOkOnce(all, FreeIds(backend));
      var todo := pending.Keys;
      while todo != {}
        modifies this`pending
        invariant forall tid :: tid in todo ==> tid in pending
        invariant forall tid :: tid in pending ==> tid in was && pending[tid] == was[tid]
        invariant forall tid :: tid in was ==> (tid in pending <==> tid in todo || tid > txid)
        invariant ListsOk(pending) && Collected(all, EntriesIn(pending), m)
      {
        var tid: Txid :| tid in todo;
        var txp := pending[tid];
        if tid <= txid {
          DropTx(all, pending, tid, m);
          m := m + txp.ids;
          pending := pending - {tid};
        }
        todo := todo - {tid};
      }
      KeptAbove(was, pending, txid);
      MergeCollected(m, all);
    }

    // The scan of releaseRange: the ids to release are collected in m.
    method ScanPending(begin: Txid, end: Txid) returns (m: seq<Pgid>)
      requires ListsOk(pending) && PendingOnce(EntriesIn(pending))
      modifies this`pending
      ensures ListsOk(pending) && Scanning(old(pending), pending, {}, begin, end, m)
    {
      hide Collected, EntriesOf, EntriesIn, Ids, PageIdsOf, Scanning, RangeTaken;
      ghost var was := pending;
      m := [];
      ScanStart(was, begin, end);
      var todo := pending.Keys;
      while todo != {}
        invariant ListsOk(pending) && Scanning(was, pending, todo, begin, end, m)
      {
        var tid: Txid :| tid in todo;
        ghost var before := todo;
        ScanSame(was, pending, todo, begin, end, m, tid);
        var txp := pending[tid];
        todo := todo - {tid};
        if tid < begin || tid > end { continue; }
        // Don't recompute freed pages if ranges haven't updated.
        if txp.lastReleaseBegin == begin { continue; }
        var rest, moved := TakeRange(tid, txp, begin, end, m);
        ScanTook(was, pending, before, begin, end, m, tid, rest, moved);
        m := moved;
        assert pending[tid := rest] - {tid} == pending - {tid};
        pending := pending[tid := rest];
        if |rest.ids| == 0 {
          pending := pending - {tid};
        }
      }
    }

    // Moves the pages both allocated and freed within [begin, end] to the freelist, except
    // those of a transaction last scanned for a range with the same beginning.
    method ReleaseRange(begin: Txid, end: Txid, ghost complete: bool)
      requires Valid() && (complete ==> ScansSound() && begin > 0)
      modifies this`pending, Footprint(backend)
      ensures Valid() && RangeMoved(old(Abs()), Abs(), begin, end, complete)
      ensures complete ==> ScansSound()
    {
      hide Collected, EntriesOf, EntriesIn, Ids, PendingOk, BackendOk, FreeIds, Scanning, ScanSound;
      if begin > end {
        NothingMoved(Abs());
        return;
      }
      PendingOkOnce(EntriesIn(pending), FreeIds(backend));
      var m := ScanPending(begin, end);
      ScanEnd(old(pending), pending, begin, end, m);
      MergeCollected(m, EntriesIn(old(pending)));
    }

    // The loop of Free over the pages of the block.
    method AddPages(was: TxPending, id: Pgid, allocTxid: Txid, n: nat) returns (txp: TxPending)
      modifies this`cache
      ensures txp == Appended(was, id, allocTxid, n) && cache == old(cache) + Interval(id, n)
    {
      hide Interval;
      txp := was;
      AppendedNone(was, id, allocTxid);
      for k := 0 to n
        invariant txp == Appended(was, id, allocTxid, k) && cache == old(cache) + Interval(id, k)
      {
        AppendedMore(was, id, allocTxid, k);
        txp := TxPending(txp.ids + [id + k], txp.alloctx + [allocTxid], txp.lastReleaseBegin);
        cache := cache + {id + k};
      }
    }

    // Frees a page and its overflow pages on the account of txid.
    method Free(txid: Txid, id: Pgid, overflow: nat)
      requires Valid() && CacheAgrees() && 0 < txid < MAX_TXID
      requires id > 1 && Interval(id, overflow + 1) !! cache
      modifies this`pending, this`allocs, this`cache
      ensures Valid() && CacheAgrees() && Abs() == Freed(old(Abs()), txid, id, overflow)
      ensures forall tid :: tid in old(pending) && tid != txid ==> tid in pending && pending[tid] == old(pending)[tid]
      ensures forall tid :: tid in pending ==> tid == txid || tid in old(pending)
      ensures txid in pending && pending[txid] ==
        Appended(PendingBy(old(pending), txid), id, if id in old(allocs) then old(allocs)[id] else 0, overflow + 1)
    {
      hide ListsOk, BackendOk, FreeIds, EntriesIn, PendingOk, PageIdsOf, Interval, PendingBy;
      var txp := if txid in pending then pending[txid] else TxPending([], [], 0);
      var allocTxid: Txid := if id in allocs then allocs[id] else 0;
      FreedPages(pending, txid, id, allocTxid, overflow + 1, FreeIds(backend));
      if id in allocs {
        allocs := allocs - {id};
      }
      PendingByIs(pending, txid, txp);
      txp := AddPages(txp, id, allocTxid, overflow + 1);
      pending := pending[txid := txp];
    }

    // Puts the pages that txid freed back in use and forgets its allocations.
    method Rollback(txid: Txid)
      requires Valid() && CacheAgrees()
      requires forall e :: e in Abs().pending && e.freed == txid ==> e.alloc != txid
      modifies this`pending, this`allocs, this`cache
      ensures Valid() && CacheAgrees() && Abs() == RolledBack(old(Abs()), txid)
      ensures pending == old(pending) - {txid}
    {
      hide ListsOk, BackendOk, FreeIds, PendingOk, Restored, PageIdsOf, EntriesIn, EntriesOf, BackInUse;
      PendingOkOnce(EntriesIn(pending), FreeIds(backend));
      if txid !in pending {
        NothingFreed(pending, txid);
        return;
      }
      var txp := pending[txid];
      WithoutTx(pending, txid, FreeIds(backend));
      RestoredAll(allocs, txid, txp);
      RestoreTx(txid, txp);
      pending := pending - {txid};
      ForgetAllocs(txid);
    }

    // The first loop of Rollback.
    method RestoreTx(txid: Txid, txp: TxPending)
      requires |txp.ids| == |txp.alloctx| && txid !in txp.alloctx
      modifies this`allocs, this`cache
      ensures cache == old(cache) - Ids(txp.ids)
      ensures allocs == Restored(old(allocs), txp, |txp.ids|)
    {
      for i := 0 to |txp.ids|
        invariant cache == old(cache) - Ids(txp.ids[..i])
        invariant allocs == Restored(old(allocs), txp, i)
      {
        var pgid := txp.ids[i];
        cache := cache - {pgid};
        assert Ids(txp.ids[..i + 1]) == Ids(txp.ids[..i]) + {pgid};
        var tx := txp.alloctx[i];
        if tx == 0 { continue; }
        assert tx != txid;
        allocs := allocs[pgid := tx];
      }
      assert txp.ids[..|txp.ids|] == txp.ids;
    }

    // The last loop of Rollback: the pages allocated by txid.
    method ForgetAllocs(txid: Txid)
      modifies this`allocs
      ensures allocs == map p | p in old(allocs) && old(allocs)[p] != txid :: old(allocs)[p]
    {
      var todo := allocs.Keys;
      while todo != {}
        invariant todo <= old(allocs).Keys
        invariant forall p :: p in allocs <==> p in old(allocs) && (p in todo || old(allocs)[p] != txid)
        invariant forall p :: p in allocs ==> allocs[p] == old(allocs)[p]
      {
        var pgid: Pgid :| pgid in todo;
        todo := todo - {pgid};
        if allocs[pgid] == txid {
          allocs := allocs - {pgid};
        }
      }
    }

    method AddReadonlyTXID(tid: Txid)
      requires Valid() && 0 < tid < MAX_TXID
      modifies this`readonlyTXIDs
      ensures Valid() && Abs() == old(Abs()).(readers := old(Abs()).readers + multiset{tid})
    {
      readonlyTXIDs := readonlyTXIDs + [tid];
    }

    // Drops one occurrence of tid, if there is one.
    method RemoveReadonlyTXID(tid: Txid)
      requires Valid()
      modifies this`readonlyTXIDs
      ensures Valid() && Abs() == old(Abs()).(readers := old(Abs()).readers - multiset{tid})
    {
      hide ListsOk, BackendOk, FreeIds, PendingOk, EntriesIn, Bounded;
      ghost var was := readonlyTXIDs;
      for i := 0 to |readonlyTXIDs|
        invariant unchanged(this)
        invariant tid !in readonlyTXIDs[..i]
      {
        if readonlyTXIDs[i] == tid {
          var last := |readonlyTXIDs| - 1;
          SwappedOut(readonlyTXIDs, i, pending.Keys);
          readonlyTXIDs := readonlyTXIDs[i := readonlyTXIDs[last]];
          readonlyTXIDs := readonlyTXIDs[..last];
          assert readonlyTXIDs == was[i := was[|was| - 1]][..|was| - 1];
          return;
        }
      }
      assert readonlyTXIDs[..|readonlyTXIDs|] == readonlyTXIDs;
    }

    // Allocates n contiguous free pages to txid; 0 when there are none.
    method Allocate(txid: Txid, n: nat) returns (pid: Pgid)
      requires Valid() && CacheAgrees()
      modifies this`allocs, this`cache, Footprint(backend)
      ensures Valid() && CacheAgrees() && pending == old(pending)
      ensures Allocated(old(Abs()).free, n, pid, Abs().free)
      ensures Abs() == old(Abs()).(free := Abs().free, allocs := if pid == 0 then old(allocs) else old(allocs)[pid := txid])
    {
      hide ListsOk, EntriesIn, PageIdsOf, PendingOk, BackendOk, FreeIds, Allocated;
      pid := AllocateSpan(n);
      AllocatedKeeps(EntriesIn(pending), old(FreeIds(backend)), n, pid, FreeIds(backend));
      if pid != 0 {
        allocs := allocs[pid := txid];
        DropFromCache(pid, n);
      }
    }

    method AllocateSpan(n: nat) returns (pid: Pgid)
      requires BackendOk(backend)
      modifies Footprint(backend)
      ensures BackendOk(backend) && Allocated(old(FreeIds(backend)), n, pid, FreeIds(backend))
    {
      hide Allocated;
      match backend
      case ArrayBackend(a) => pid := a.Allocate(n);
      case HashMapBackend(h) => pid := h.Allocate(n);
    }

    method DropFromCache(pid: Pgid, n: nat)
      modifies this`cache
      ensures cache == old(cache) - Interval(pid, n)
    {
      for i := 0 to n
        invariant cache == old(cache) - Interval(pid, i)
      {
        cache := cache - {pid + i};
      }
    }

    // Releases every pending page that no open reader can still see.
    method ReleasePendingPages()
      requires Valid()
      modifies this`pending, this`readonlyTXIDs, Footprint(backend)
      ensures Valid() && Abs().pending <= old(Abs()).pending
      ensures Abs() == Moved(old(Abs()), old(Abs()).pending - Abs().pending)
      ensures forall e :: e in old(Abs()).pending && e !in Abs().pending ==> Releasable(old(Abs()).readers, e)
      ensures old(ScansSound()) ==> ScansSound() && Abs() == Released(old(Abs()))
    {
      hide ListsOk, BackendOk, FreeIds, EntriesIn, PendingOk, ScanSound, Moved, RangeMoved, ExtentsMoved, Releasable;
      var sorted := SortTxids(readonlyTXIDs);
      readonlyTXIDs := sorted;
      ghost var start, complete := Abs(), ScansSound();
      var minid: Txid := MAX_TXID;
      if |readonlyTXIDs| > 0 {
        minid := readonlyTXIDs[0];
        assert minid in readonlyTXIDs;
      }
      if minid > 0 {
        Release(minid - 1);
      }
      MovedBelow(start, Abs(), sorted, minid, complete);
      for k := 0 to |readonlyTXIDs|
        modifies this`pending, Footprint(backend)
        invariant Valid() && readonlyTXIDs == sorted && (complete ==> ScansSound())
        invariant minid == ExtentBegin(sorted, k)
        invariant ExtentsMoved(start, Abs(), sorted, k, complete)
      {
        var tid := readonlyTXIDs[k];
        assert tid in readonlyTXIDs;
        ghost var before := Abs();
        ReleaseRange(minid, tid - 1, complete);
        MovedExtent(start, before, Abs(), sorted, k, complete);
        minid := tid + 1;
      }
      ghost var before := Abs();
      ReleaseRange(minid, MAX_TXID, complete);
      MovedExtent(start, before, Abs(), sorted, |sorted|, complete);
      AllExtentsMoved(start, Abs(), sorted, complete);
    }
  
    // The ids of all pending pages, over the transactions in any order.
    method PendingList() returns (m: seq<Pgid>)
      requires ListsOk(pending) && PendingOnce(EntriesIn(pending))
      ensures Distinct(m) && Ids(m) == PageIdsOf(EntriesIn(pending))
    {
      hide ListsOk, EntriesIn, Ids, PageIdsOf, Collected, PendingOnce;
      m := [];
      ghost var all, rest := EntriesIn(pending), pending;
      CollectNone(all);
      var todo := pending.Keys;
      while todo != {}
        invariant rest.Keys == todo && (forall tid :: tid in rest ==> tid in pending && rest[tid] == pending[tid])
        invariant ListsOk(rest) && Collected(all, EntriesIn(rest), m)
      {
        var tid: Txid :| tid in todo;
        DropTx(all, rest, tid, m);
        m := m + pending[tid].ids;
        todo, rest := todo - {tid}, rest - {tid};
      }
      assert rest == map[];
      NoLists();
      CollectedAll(all, m);
    }

    method FreePageIds() returns (ids: seq<Pgid>)
      requires BackendOk(backend)
      ensures StrictlySorted(ids) && Ids(ids) == FreeIds(backend)
    {
      match backend
      case ArrayBackend(a) => ids := a.FreePageIds();
      case HashMapBackend(h) => ids := h.FreePageIds();
    }

    // reindex rebuilds the lookup table from the free and the pending pages.
    method Reindex()
      requires (this as object) !in Footprint(backend) && BackendOk(backend) && ListsOk(pending) && PendingOnce(EntriesIn(pending))
      modifies this`cache
      ensures CacheAgrees()
    {
      hide ListsOk, BackendOk, FreeIds, PendingOk, EntriesIn;
      var free := FreePageIds();
      var ids := PendingList();
      cache := Ids(free) + Ids(ids);
    }

    method InitBackend(pgids: seq<Pgid>)
      requires StrictlySorted(pgids) && forall id :: id in pgids ==> id > 1
      modifies Footprint(backend)
      ensures BackendOk(backend) && FreeIds(backend) == Ids(pgids)
    {
      assert pgids != [] ==> pgids[0] in pgids;
      match backend
      case ArrayBackend(a) => a.Init(pgids);
      case HashMapBackend(h) => h.Init(pgids);
    }

    // Loads the given free pages. With no page to load, the hash map backend does not rebuild
    // the lookup table, which is then right only if it already held just the pending pages.
    method Init(pgids: seq<Pgid>)
      requires Loading() && StrictlySorted(pgids) && forall id :: id in pgids ==> id > 1
      modifies this`cache, Footprint(backend)
      ensures Loading() && Abs() == old(Abs()).(free := Ids(pgids))
      ensures Valid() <==> Ids(pgids) !! PageIdsOf(Abs().pending)
      ensures CacheAgrees() <==>
        backend.ArrayBackend? || pgids != [] || old(cache) == PageIdsOf(EntriesIn(pending))
      ensures backend.HashMapBackend? && pgids == [] ==> cache == old(cache)
    {
      hide ListsOk, BackendOk, FreeIds, PendingOk, PendingOnce, EntriesIn, PageIdsOf, Bounded;
      InitKeeps(EntriesIn(pending), pgids);
      InitBackend(pgids);
      if backend.ArrayBackend? || |pgids| != 0 {
        Reindex();
      }
    }

    method FreeCount() returns (n: nat)
      requires BackendOk(backend)
      ensures n == |FreeIds(backend)|
    {
      match backend
      case ArrayBackend(a) => n := a.FreeCount();
      case HashMapBackend(h) => n := h.FreeCount();
    }

    // The number of free and pending pages.
    method Count() returns (n: nat)
      requires Valid()
      ensures n == |Abs().free + PageIdsOf(Abs().pending)|
    {
      hide ListsOk, BackendOk, FreeIds, EntriesIn, PageIdsOf, PendingOk, Ids;
      var free := FreeCount();
      PendingOkOnce(EntriesIn(pending), FreeIds(backend));
      var pendingIds := PendingList();
      DistinctCount(pendingIds);
      PendingApart(EntriesIn(pending), FreeIds(backend));
      n := free + |pendingIds|;
    }

    // Both kinds of ids, each in ascending order.
    method FreeAndPending() returns (free: seq<Pgid>, m: seq<Pgid>)
      requires Valid()
      ensures StrictlySorted(free) && StrictlySorted(m) && StrictlySorted(Merged(free, m))
      ensures Ids(Merged(free, m)) == Abs().free + PageIdsOf(Abs().pending)
      ensures |free| + |m| == |Abs().free + PageIdsOf(Abs().pending)|
    {
      hide ListsOk, BackendOk, FreeIds, EntriesIn, PageIdsOf, PendingOk, Merged, Ids, StrictlySorted, Sorted, Distinct, Bounded;
      free := FreePageIds();
      PendingOkOnce(EntriesIn(pending), FreeIds(backend));
      m := PendingList();
      m := SortDistinct(m);
      PendingApart(EntriesIn(pending), FreeIds(backend));
      DisjointUnion(free, m);
    }

    // Copies all free and all pending ids, in ascending order, to the front of dst.
    method Copyall(dst: array<Pgid>, ghost n: nat)
      requires Valid() && n == |Abs().free + PageIdsOf(Abs().pending)| <= dst.Length
      modifies dst
      ensures StrictlySorted(dst[..n]) && Ids(dst[..n]) == old(Abs().free + PageIdsOf(Abs().pending))
      ensures forall k :: n <= k < dst.Length ==> dst[k] == old(dst[k])
    {
      hide ListsOk, BackendOk, FreeIds, EntriesIn, PageIdsOf, PendingOk, Merged, Ids, StrictlySorted, Sorted, Distinct, Bounded;
      var free, m := FreeAndPending();
      StrictIsSorted(free);
      StrictIsSorted(m);
      Mergepgids(dst, free, m);
      assert dst[..n] == Merged(free, m);
    }

    // Loads the ids that are not pending.
    method NoSyncReload(pgids: seq<Pgid>)
      requires Loading() && StrictlySorted(pgids) && forall id :: id in pgids ==> id > 1
      modifies this`cache, Footprint(backend)
      ensures Valid() && Abs() == old(Abs()).(free := Ids(pgids) - PageIdsOf(old(Abs()).pending))
      ensures CacheAgrees() <==>
        backend.ArrayBackend? || !(Ids(pgids) <= PageIdsOf(EntriesIn(pending))) || old(cache) == PageIdsOf(EntriesIn(pending))
    {
      hide ListsOk, BackendOk, FreeIds, PendingOk, PendingOnce, EntriesIn, PageIdsOf, Bounded;
      PendingOkOnce(EntriesIn(pending), {});
      var pcache := PendingList();
      var a: seq<Pgid> := [];
      for i := 0 to |pgids|
        invariant StrictlySorted(a) && forall id :: id in a <==> id in pgids[..i] && id !in pcache
      {
        if pgids[i] !in pcache {
          assert forall k :: 0 <= k < |a| ==> a[k] in a;
          a := a + [pgids[i]];
        }
      }
      assert pgids[..|pgids|] == pgids;
      assert forall id :: id in pcache <==> id in Ids(pcache);
      assert a == [] <==> Ids(pgids) <= Ids(pcache) by {
        if a != [] { assert a[0] in a && a[0] in Ids(pgids); }
        if a == [] { assert forall id :: id in Ids(pgids) ==> id in pgids; }
      }
      Init(a);
    }
  }

  // Loading one page and then none: the hash map keeps the page in the lookup table. The database loads a
  // freelist only once, when it is new (environment/bbolt/db.go:427-432), and so does not get there.
  method StaleCache() returns (f: Freelist)
    ensures f.Valid() && f.Abs().free == {} && f.cache == {2} && !f.CacheAgrees()
  {
    hide ListsOk, BackendOk, FreeIds, EntriesIn, PendingOk, Bounded, PageIdsOf;
    f := new Freelist(true);
    NothingPendingYet();
    f.ValidLoads();
    f.Init([2]);
    assert f.CacheAgrees() && f.Abs().free == {2};
    assert f.cache == {2};
    f.Init([]);
    assert f.Abs().free == {};
  }

  lemma NothingPendingYet()
    ensures PageIdsOf({}) == {}
  {
  }
}
