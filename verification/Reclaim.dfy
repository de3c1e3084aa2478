// What the page reclamation of environment/bbolt/internal/freelist/shared.go means, on values:
// which pages are free, which are pending and on whose account, and when a pending page may go.
module Reclaim {
  import opened PageIds

  // A page freed by transaction freed that was allocated by alloc; 0 when that is not known.
  datatype PendingPage = PendingPage(id: Pgid, alloc: Txid, freed: Txid)

  datatype Catalog = Catalog(
    free: set<Pgid>,
    pending: set<PendingPage>,
    allocs: map<Pgid, Txid>,
    readers: multiset<Txid>)

  function PageIdsOf(pending: set<PendingPage>): set<Pgid> {
    set e | e in pending :: e.id
  }

  // A reader of snapshot r separates the allocation of a page from its release: r is neither
  // below both transactions nor above both.
  predicate Holds(r: Txid, e: PendingPage) {
    !(r < e.alloc && r < e.freed) && !(e.alloc < r && e.freed < r)
  }

  // A pending page may go when it was freed before every reader, or when no reader holds it.
  ghost predicate Releasable(readers: multiset<Txid>, e: PendingPage) {
    || (forall r :: r in readers ==> e.freed < r)
    || (forall r :: r in readers ==> !Holds(r, e))
  }

  // For a page allocated no later than it was freed, Releasable says that no open reader
  // lies between the two.
  lemma ReleasableMeaning(readers: multiset<Txid>, e: PendingPage)
    requires e.alloc <= e.freed
    ensures Releasable(readers, e) <==> !exists r :: r in readers && e.alloc <= r <= e.freed
  {
    if Releasable(readers, e) {
      forall r | r in readers ensures !(e.alloc <= r <= e.freed) {
        assert !Holds(r, e) || e.freed < r;
      }
    } else {
      var r :| r in readers && Holds(r, e);
    }
  }

  // Pending pages become free.
  function Moved(c: Catalog, go: set<PendingPage>): Catalog {
    c.(free := c.free + PageIdsOf(go), pending := c.pending - go)
  }

  ghost function Released(c: Catalog): Catalog {
    Moved(c, set e | e in c.pending && Releasable(c.readers, e))
  }

  // Freeing the page id and its overflow pages on the account of txid.
  function Freed(c: Catalog, txid: Txid, id: Pgid, overflow: nat): Catalog {
    var alloc := if id in c.allocs then c.allocs[id] else 0;
    c.(pending := c.pending + (set q | q in Interval(id, overflow + 1) :: PendingPage(q, alloc, txid)),
       allocs := c.allocs - {id})
  }

  function FreedBy(pending: set<PendingPage>, txid: Txid): set<PendingPage> {
    set e | e in pending && e.freed == txid
  }

  // No page is pending twice.
  ghost predicate PendingOnce(pending: set<PendingPage>) {
    forall e, f :: e in pending && f in pending && e.id == f.id ==> e == f
  }

  // The pending page with a given id.
  ghost function EntryOf(pending: set<PendingPage>, p: Pgid): (e: PendingPage)
    requires p in PageIdsOf(pending)
    ensures e in pending && e.id == p
  {
    var e :| e in pending && e.id == p; e
  }

  // The allocation table for pages that are back in use: who allocated them, where that is known.
  ghost function BackInUse(mine: set<PendingPage>): map<Pgid, Txid> {
    map p | p in PageIdsOf(mine) && EntryOf(mine, p).alloc != 0 :: EntryOf(mine, p).alloc
  }

  // Rolling txid back: its pending pages are in use again, with the transaction that allocated
  // them, and its own allocations are forgotten. Nothing happens when it freed nothing.
  ghost function RolledBack(c: Catalog, txid: Txid): Catalog {
    var mine := FreedBy(c.pending, txid);
    if mine == {} then c else
      var restored := c.allocs + BackInUse(mine);
      c.(pending := c.pending - mine, allocs := map p | p in restored && restored[p] != txid :: restored[p])
  }

  // Moving in two steps.
  lemma MovedTwice(c: Catalog, d: Catalog, e: Catalog)
    requires d.pending <= c.pending && d == Moved(c, c.pending - d.pending)
    requires e.pending <= d.pending && e == Moved(d, d.pending - e.pending)
    ensures e.pending <= c.pending && e == Moved(c, c.pending - e.pending)
  {
    assert (c.pending - d.pending) + (d.pending - e.pending) == c.pending - e.pending;
  }

  // Both transactions of a page lie within [begin, end].
  ghost predicate InRange(e: PendingPage, begin: int, end: int) {
    begin <= e.alloc <= end && begin <= e.freed <= end
  }

  // Only pages within [begin, end] have moved, and all of them if the scan was complete.
  ghost predicate RangeMoved(c: Catalog, d: Catalog, begin: int, end: int, complete: bool) {
    && d.pending <= c.pending && d == Moved(c, c.pending - d.pending)
    && (forall e :: e in c.pending && e !in d.pending ==> InRange(e, begin, end))
    && (complete ==> forall e :: e in d.pending ==> !InRange(e, begin, end))
  }

  // The extents that readers in ascending order leave between them: extent j ends just before
  // readers[j] and begins just after readers[j - 1]; the last one is open.
  function ExtentBegin(readers: seq<Txid>, j: nat): nat
    requires j <= |readers|
  {
    if j > 0 then readers[j - 1] as int + 1
    else if readers == [] then MAX_TXID
    else readers[0]
  }

  function ExtentEnd(readers: seq<Txid>, j: nat): int
    requires j <= |readers|
  {
    if j == |readers| then MAX_TXID else readers[j] as int - 1
  }

  ghost predicate InExtent(readers: seq<Txid>, j: nat, e: PendingPage)
    requires j <= |readers|
  {
    InRange(e, ExtentBegin(readers, j), ExtentEnd(readers, j))
  }

  // Scanning the extents one after the other finds exactly the releasable pages.
  lemma ExtentIsFree(readers: seq<Txid>, j: nat, e: PendingPage, r: Txid)
    requires Sorted(readers) && j <= |readers| && InExtent(readers, j, e) && r in readers
    ensures !Holds(r, e)
  {
    var k :| 0 <= k < |readers| && readers[k] == r;
    if k < j { assert r <= readers[j - 1]; } else { assert readers[j] <= r; }
  }

  lemma ExtentsCover(readers: seq<Txid>, e: PendingPage)
    requires Sorted(readers) && e.freed < MAX_TXID
    ensures Releasable(multiset(readers), e) <==>
      e.freed < ExtentBegin(readers, 0) || exists j :: 0 <= j <= |readers| && InExtent(readers, j, e)
  {
    if j :| 0 <= j <= |readers| && InExtent(readers, j, e) {
      forall r | r in multiset(readers) ensures !Holds(r, e) { ExtentIsFree(readers, j, e, r); }
    }
    if Releasable(multiset(readers), e) && readers != [] {
      assert readers[0] in multiset(readers);
      var j := CountBelow(readers, e.freed);
      assert j < |readers| ==> readers[j] in multiset(readers);
      assert j > 0 ==> readers[j - 1] in multiset(readers);
      assert j == 0 || InExtent(readers, j, e);
    }
  }

  lemma {:induction false} CountBelow(readers: seq<Txid>, t: Txid) returns (j: nat)
    requires Sorted(readers)
    ensures j <= |readers| && (j > 0 ==> readers[j - 1] < t) && (j < |readers| ==> t <= readers[j])
  {
    j := 0;
    while j < |readers| && readers[j] < t
      invariant j <= |readers| && (j > 0 ==> readers[j - 1] < t)
    {
      j := j + 1;
    }
  }

  // The page was freed before all readers or lies in one of the first k extents.
  ghost predicate PassedBy(readers: seq<Txid>, k: nat, e: PendingPage)
    requires k <= |readers| + 1
  {
    e.freed < ExtentBegin(readers, 0) || exists j :: 0 <= j < k && InExtent(readers, j, e)
  }

  // Where ReleasePendingPages stands after the first k extents.
  ghost predicate ExtentsMoved(c: Catalog, d: Catalog, readers: seq<Txid>, k: nat, complete: bool)
    requires k <= |readers| + 1
  {
    && d.pending <= c.pending && d == Moved(c, c.pending - d.pending)
    && (forall e :: e in c.pending && e !in d.pending ==> PassedBy(readers, k, e))
    && (complete ==> forall e :: e in d.pending ==> !PassedBy(readers, k, e))
  }

  lemma MovedBelow(c: Catalog, d: Catalog, readers: seq<Txid>, minid: Txid, complete: bool)
    requires 0 < minid == ExtentBegin(readers, 0)
    requires d == Moved(c, set e | e in c.pending && e.freed <= minid - 1)
    ensures ExtentsMoved(c, d, readers, 0, complete)
  {
    var go := set e | e in c.pending && e.freed <= minid - 1;
    assert c.pending - (c.pending - go) == go;
  }

  lemma MovedExtent(c: Catalog, d: Catalog, e: Catalog, readers: seq<Txid>, k: nat, complete: bool)
    requires k <= |readers| && ExtentsMoved(c, d, readers, k, complete)
    requires RangeMoved(d, e, ExtentBegin(readers, k), ExtentEnd(readers, k), complete)
    ensures ExtentsMoved(c, e, readers, k + 1, complete)
  {
    MovedTwice(c, d, e);
    forall x | x in c.pending && x !in e.pending ensures PassedBy(readers, k + 1, x) {
      if x in d.pending {
        assert InExtent(readers, k, x);
      } else if x.freed >= ExtentBegin(readers, 0) {
        var j :| 0 <= j < k && InExtent(readers, j, x);
      }
    }
    if complete {
      forall x | x in e.pending ensures !PassedBy(readers, k + 1, x) {
        assert !PassedBy(readers, k, x);
        assert !InExtent(readers, k, x);
      }
    }
  }

  lemma AllExtentsMoved(c: Catalog, d: Catalog, readers: seq<Txid>, complete: bool)
    requires Sorted(readers) && multiset(readers) == c.readers
    requires forall e :: e in c.pending ==> e.freed < MAX_TXID
    requires ExtentsMoved(c, d, readers, |readers| + 1, complete)
    ensures d.pending <= c.pending && d == Moved(c, c.pending - d.pending)
    ensures forall e :: e in c.pending && e !in d.pending ==> Releasable(c.readers, e)
    ensures complete ==> d == Released(c)
  {
    forall e | e in c.pending ensures PassedBy(readers, |readers| + 1, e) <==> Releasable(c.readers, e) {
      ExtentsCover(readers, e);
    }
    if complete {
      assert c.pending - d.pending == set e | e in c.pending && Releasable(c.readers, e);
    }
  }
}
