// The pending lists of environment/bbolt/internal/freelist/shared.go: one list of pages per
// freeing transaction, filtered in place. Everything is stated about the set of pending pages.
module PendingLists {
  import opened PageIds
  import opened Reclaim

  datatype TxPending = TxPending(ids: seq<Pgid>, alloctx: seq<Txid>, lastReleaseBegin: Txid)

  // The pending pages of one transaction.
  function EntriesOf(tid: Txid, txp: TxPending): set<PendingPage>
    requires |txp.ids| == |txp.alloctx|
  {
    set i | 0 <= i < |txp.ids| :: PendingPage(txp.ids[i], txp.alloctx[i], tid)
  }

  ghost predicate ListsOk(pending: map<Txid, TxPending>) {
    forall tid :: tid in pending ==>
      |pending[tid].ids| == |pending[tid].alloctx| > 0 && Distinct(pending[tid].ids)
  }

  ghost function EntriesIn(pending: map<Txid, TxPending>): (r: set<PendingPage>)
    requires ListsOk(pending)
    ensures forall e :: e in r <==> e.freed in pending && e in EntriesOf(e.freed, pending[e.freed])
  {
    set tid, e | tid in pending && e in EntriesOf(tid, pending[tid]) :: e
  }

  // Nothing that the last scan left behind for a range beginning at lastReleaseBegin
  // was allocated at or after it.
  ghost predicate ScanSound(tid: Txid, txp: TxPending) {
    && (forall i :: 0 <= i < |txp.alloctx| ==> txp.alloctx[i] <= tid)
    && (txp.lastReleaseBegin != 0 ==> forall i :: 0 <= i < |txp.alloctx| ==> txp.alloctx[i] < txp.lastReleaseBegin)
  }

  lemma EntryAt(tid: Txid, txp: TxPending, e: PendingPage)
    requires |txp.ids| == |txp.alloctx|
    ensures e in EntriesOf(tid, txp) <==>
      e.freed == tid && exists i :: 0 <= i < |txp.ids| && txp.ids[i] == e.id && txp.alloctx[i] == e.alloc
  {
  }

  lemma IdsOfEntries(tid: Txid, txp: TxPending)
    requires |txp.ids| == |txp.alloctx|
    ensures PageIdsOf(EntriesOf(tid, txp)) == Ids(txp.ids)
  {
    var es := EntriesOf(tid, txp);
    forall p ensures p in Ids(txp.ids) <==> p in PageIdsOf(es) {
      if p in txp.ids {
        var i :| 0 <= i < |txp.ids| && txp.ids[i] == p;
        assert PendingPage(txp.ids[i], txp.alloctx[i], tid) in es;
      }
    }
  }

  // The last element takes the place of the one at k.
  function SwapRemove<T>(s: seq<T>, k: nat): seq<T>
    requires k < |s|
  {
    s[k := s[|s| - 1]][..|s| - 1]
  }

  lemma SwapRemoveEntries(tid: Txid, ids: seq<Pgid>, alloctx: seq<Txid>, k: nat)
    requires k < |ids| == |alloctx| && Distinct(ids)
    ensures Distinct(SwapRemove(ids, k)) && Ids(SwapRemove(ids, k)) == Ids(ids) - {ids[k]}
    ensures EntriesOf(tid, TxPending(SwapRemove(ids, k), SwapRemove(alloctx, k), 0)) ==
            EntriesOf(tid, TxPending(ids, alloctx, 0)) - {PendingPage(ids[k], alloctx[k], tid)}
  {
    var n := |ids| - 1;
    var ids', alloctx' := SwapRemove(ids, k), SwapRemove(alloctx, k);
    var es, es' := EntriesOf(tid, TxPending(ids, alloctx, 0)), EntriesOf(tid, TxPending(ids', alloctx', 0));
    forall i | 0 <= i < |ids| && i != k
      ensures var j := if i == n then k else i; j < n && ids'[j] == ids[i] && alloctx'[j] == alloctx[i]
    {}
    forall e | e in es' ensures e in es && e.id != ids[k] {
      var j :| 0 <= j < n && e == PendingPage(ids'[j], alloctx'[j], tid);
      var i := if j == k then n else j;
      assert ids'[j] == ids[i] && alloctx'[j] == alloctx[i];
    }
    forall e | e in es && e.id != ids[k] ensures e in es' {
      var i :| 0 <= i < |ids| && e == PendingPage(ids[i], alloctx[i], tid);
      var j := if i == n then k else i;
      assert ids'[j] == ids[i] && alloctx'[j] == alloctx[i];
    }
    IdsOfEntries(tid, TxPending(ids, alloctx, 0));
    IdsOfEntries(tid, TxPending(ids', alloctx', 0));
  }

  // Where the inner loop of releaseRange stands: of the pages all, those in left remain on the
  // lists, those that went were allocated in the range, and moved has collected their ids.
  ghost predicate Taking(all: set<PendingPage>, left: set<PendingPage>, begin: Txid, end: Txid, m: seq<Pgid>, moved: seq<Pgid>) {
    && left <= all
    && (forall e :: e in all && e !in left ==> begin <= e.alloc <= end)
    && Distinct(moved) && Ids(moved) == Ids(m) + PageIdsOf(all - left)
  }

  lemma TakeOne(all: set<PendingPage>, left: set<PendingPage>, e: PendingPage, begin: Txid, end: Txid, m: seq<Pgid>, moved: seq<Pgid>)
    requires Taking(all, left, begin, end, m, moved) && e in left && begin <= e.alloc <= end && e.id !in moved
    ensures Taking(all, left - {e}, begin, end, m, moved + [e.id])
  {
    assert all - (left - {e}) == (all - left) + {e};
  }

  // What the inner loop of releaseRange does: of the pages of txp exactly those not allocated
  // in the range stay, and the ids of the others join m.
  ghost predicate RangeTaken(tid: Txid, txp: TxPending, begin: Txid, end: Txid, m: seq<Pgid>, rest: TxPending, moved: seq<Pgid>)
    requires |txp.ids| == |txp.alloctx|
  {
    && |rest.ids| == |rest.alloctx| && Distinct(rest.ids) && rest.lastReleaseBegin == begin
    && EntriesOf(tid, rest) == (set e | e in EntriesOf(tid, txp) && !(begin <= e.alloc <= end))
    && Distinct(moved) && Ids(moved) == Ids(m) + PageIdsOf(EntriesOf(tid, txp) - EntriesOf(tid, rest))
  }

  // The inner loop of releaseRange: the pages of txp allocated within [begin, end] move to m.
  method TakeRange(tid: Txid, txp: TxPending, begin: Txid, end: Txid, m: seq<Pgid>)
    returns (rest: TxPending, moved: seq<Pgid>)
    requires |txp.ids| == |txp.alloctx| && Distinct(txp.ids)
    requires Distinct(m) && Ids(m) !! Ids(txp.ids)
    ensures RangeTaken(tid, txp, begin, end, m, rest, moved)
  {
    var ids, alloctx := txp.ids, txp.alloctx;
    moved := m;
    var i := 0;
    ghost var all := EntriesOf(tid, txp);
    hide Taking, EntriesOf, SwapRemove, Ids;
    TakingStarts(all, begin, end, m);
    EntriesSame(tid, txp, 0);
    while i < |ids|
      invariant 0 <= i <= |ids| == |alloctx| && Distinct(ids) && Ids(moved) !! Ids(ids)
      invariant forall j :: 0 <= j < i ==> !(begin <= alloctx[j] <= end)
      invariant Taking(all, EntriesOf(tid, TxPending(ids, alloctx, 0)), begin, end, m, moved)
      decreases |ids| - i
    {
      var atx := alloctx[i];
      if atx < begin || atx > end {
        i := i + 1;
        continue;
      }
      TakeEntry(tid, ids, alloctx, i, all, begin, end, m, moved);
      moved := moved + [ids[i]];
      ids := ids[i := ids[|ids| - 1]][..|ids| - 1];
      alloctx := alloctx[i := alloctx[|alloctx| - 1]][..|alloctx| - 1];
    }
    rest := TxPending(ids, alloctx, begin);
    EntriesSame(tid, rest, 0);
    Taken(tid, all, rest, begin, end, m, moved);
  }

  lemma TakingStarts(all: set<PendingPage>, begin: Txid, end: Txid, m: seq<Pgid>)
    requires Distinct(m)
    ensures Taking(all, all, begin, end, m, m)
  {
    assert all - all == {};
  }

  lemma EntriesSame(tid: Txid, txp: TxPending, begin: Txid)
    requires |txp.ids| == |txp.alloctx|
    ensures EntriesOf(tid, txp) == EntriesOf(tid, TxPending(txp.ids, txp.alloctx, begin))
  {
  }

  lemma TakeEntry(tid: Txid, ids: seq<Pgid>, alloctx: seq<Txid>, i: nat, all: set<PendingPage>,
                  begin: Txid, end: Txid, m: seq<Pgid>, moved: seq<Pgid>)
    requires i < |ids| == |alloctx| && Distinct(ids) && Ids(moved) !! Ids(ids) && begin <= alloctx[i] <= end
    requires Taking(all, EntriesOf(tid, TxPending(ids, alloctx, 0)), begin, end, m, moved)
    ensures var ids', alloctx' := ids[i := ids[|ids| - 1]][..|ids| - 1], alloctx[i := alloctx[|alloctx| - 1]][..|alloctx| - 1];
      && Distinct(ids') && Ids(moved + [ids[i]]) !! Ids(ids')
      && Taking(all, EntriesOf(tid, TxPending(ids', alloctx', 0)), begin, end, m, moved + [ids[i]])
  {
    hide Taking;
    var e := PendingPage(ids[i], alloctx[i], tid);
    assert e in EntriesOf(tid, TxPending(ids, alloctx, 0));
    assert ids[i] in Ids(ids);
    SwapRemoveEntries(tid, ids, alloctx, i);
    TakeOne(all, EntriesOf(tid, TxPending(ids, alloctx, 0)), e, begin, end, m, moved);
  }

  lemma Taken(tid: Txid, all: set<PendingPage>, rest: TxPending, begin: Txid, end: Txid, m: seq<Pgid>, moved: seq<Pgid>)
    requires |rest.ids| == |rest.alloctx| && forall j :: 0 <= j < |rest.alloctx| ==> !(begin <= rest.alloctx[j] <= end)
    requires Taking(all, EntriesOf(tid, rest), begin, end, m, moved)
    ensures EntriesOf(tid, rest) == set e | e in all && !(begin <= e.alloc <= end)
    ensures Distinct(moved) && Ids(moved) == Ids(m) + PageIdsOf(all - EntriesOf(tid, rest))
  {
  }

  lemma EntriesWithout(pending: map<Txid, TxPending>, tid: Txid)
    requires ListsOk(pending) && tid in pending
    ensures ListsOk(pending - {tid})
    ensures EntriesIn(pending - {tid}) == EntriesIn(pending) - EntriesOf(tid, pending[tid])
    ensures EntriesOf(tid, pending[tid]) == FreedBy(EntriesIn(pending), tid)
  {
    assert forall e, t :: t in pending && e in EntriesOf(t, pending[t]) ==> e.freed == t;
  }

  lemma EntriesWith(pending: map<Txid, TxPending>, tid: Txid, rest: TxPending)
    requires ListsOk(pending) && |rest.ids| == |rest.alloctx| > 0 && Distinct(rest.ids)
    ensures ListsOk(pending[tid := rest])
    ensures EntriesIn(pending[tid := rest]) ==
      (if tid in pending then EntriesIn(pending) - EntriesOf(tid, pending[tid]) else EntriesIn(pending)) + EntriesOf(tid, rest)
  {
    assert forall e, t :: t in pending && e in EntriesOf(t, pending[t]) ==> e.freed == t;
    if tid in pending { EntriesWithout(pending, tid); }
  }

  // The pages that left went to m, each once.
  ghost predicate Collected(all: set<PendingPage>, left: set<PendingPage>, m: seq<Pgid>) {
    left <= all && Distinct(m) && Ids(m) == PageIdsOf(all - left)
  }

  lemma CollectMore(all: set<PendingPage>, left: set<PendingPage>, m: seq<Pgid>, go: set<PendingPage>, moved: seq<Pgid>)
    requires Collected(all, left, m) && go <= left && Distinct(moved) && Ids(moved) == Ids(m) + PageIdsOf(go)
    ensures Collected(all, left - go, moved)
  {
    assert all - (left - go) == (all - left) + go;
  }

  lemma CollectedApart(all: set<PendingPage>, left: set<PendingPage>, m: seq<Pgid>, go: set<PendingPage>)
    requires PendingOnce(all) && Collected(all, left, m) && go <= left
    ensures Ids(m) !! PageIdsOf(go)
  {
  }

  lemma CollectNone(all: set<PendingPage>)
    ensures Collected(all, all, [])
  {
    assert all - all == {};
  }

  // release takes a whole transaction.
  lemma DropTx(all: set<PendingPage>, pending: map<Txid, TxPending>, tid: Txid, m: seq<Pgid>)
    requires ListsOk(pending) && tid in pending && PendingOnce(all) && Collected(all, EntriesIn(pending), m)
    ensures ListsOk(pending - {tid}) && Collected(all, EntriesIn(pending - {tid}), m + pending[tid].ids)
  {
    hide Collected, EntriesOf, EntriesIn, Ids, PageIdsOf;
    var go := EntriesOf(tid, pending[tid]);
    EntriesWithout(pending, tid);
    FreedByWithin(EntriesIn(pending), tid);
    IdsOfEntries(tid, pending[tid]);
    CollectedApart(all, EntriesIn(pending), m, go);
    CollectedDistinct(all, EntriesIn(pending), m);
    DisjointConcat(m, pending[tid].ids);
    CollectMore(all, EntriesIn(pending), m, go, m + pending[tid].ids);
  }

  lemma CollectedDistinct(all: set<PendingPage>, left: set<PendingPage>, m: seq<Pgid>)
    requires Collected(all, left, m)
    ensures Distinct(m) && Ids(m) == PageIdsOf(all - left)
  {
  }

  lemma FreedByWithin(pending: set<PendingPage>, tid: Txid)
    ensures FreedBy(pending, tid) <= pending
  {
  }

  lemma CollectedFree(all: set<PendingPage>, left: set<PendingPage>, m: seq<Pgid>, free: set<Pgid>)
    requires PendingOk(all, free) && Collected(all, left, m)
    ensures Distinct(m) && Ids(m) == PageIdsOf(all - left)
    ensures forall id :: id in m ==> id > 1 && id !in free
    ensures PendingOk(left, free + Ids(m))
  {
    forall id | id in m ensures id > 1 && id !in free {
      assert id in Ids(m);
    }
  }

  lemma PendingOkOnce(all: set<PendingPage>, free: set<Pgid>)
    requires PendingOk(all, free)
    ensures PendingOnce(all)
  {
  }

  lemma KeptAbove(was: map<Txid, TxPending>, pending: map<Txid, TxPending>, txid: Txid)
    requires ListsOk(was) && ListsOk(pending)
    requires forall tid :: tid in pending <==> tid in was && tid > txid
    requires forall tid :: tid in pending ==> pending[tid] == was[tid]
    ensures var go := set e | e in EntriesIn(was) && e.freed <= txid;
      EntriesIn(pending) == EntriesIn(was) - go && EntriesIn(was) - EntriesIn(pending) == go
  {
    assert forall e, t :: t in was && e in EntriesOf(t, was[t]) ==> e.freed == t;
  }

  // What the scan of [begin, end] makes of the transaction that was txp.
  ghost predicate Scanned(tid: Txid, txp: TxPending, pending: map<Txid, TxPending>, begin: Txid, end: Txid)
    requires |txp.ids| == |txp.alloctx| && ListsOk(pending)
  {
    if tid < begin || tid > end || txp.lastReleaseBegin == begin then
      tid in pending && pending[tid] == txp
    else
      var left := set e | e in EntriesOf(tid, txp) && !(begin <= e.alloc <= end);
      if tid in pending then EntriesOf(tid, pending[tid]) == left && pending[tid].lastReleaseBegin == begin
      else left == {}
  }

  lemma AllScanned(was: map<Txid, TxPending>, pending: map<Txid, TxPending>, begin: Txid, end: Txid)
    requires ListsOk(was) && ListsOk(pending) && pending.Keys <= was.Keys
    requires forall tid :: tid in was ==> Scanned(tid, was[tid], pending, begin, end)
    ensures forall e :: e in EntriesIn(was) ==>
      (e in EntriesIn(pending) <==> !InRange(e, begin, end) || was[e.freed].lastReleaseBegin == begin)
  {
    assert forall e, t :: t in was && e in EntriesOf(t, was[t]) ==> e.freed == t;
    assert forall e, t :: t in pending && e in EntriesOf(t, pending[t]) ==> e.freed == t;
    forall e | e in EntriesIn(was)
      ensures e in EntriesIn(pending) <==> !InRange(e, begin, end) || was[e.freed].lastReleaseBegin == begin
    {
      var tid: Txid := e.freed;
      assert Scanned(tid, was[tid], pending, begin, end);
      if begin <= tid <= end && was[tid].lastReleaseBegin != begin {
        var left := set x | x in EntriesOf(tid, was[tid]) && !(begin <= x.alloc <= end);
        assert e in left <==> !InRange(e, begin, end);
      }
    }
  }

  lemma ScannedSound(was: map<Txid, TxPending>, pending: map<Txid, TxPending>, begin: Txid, end: Txid, tid: Txid)
    requires ListsOk(was) && ListsOk(pending) && tid in was && tid in pending && begin > 0
    requires Scanned(tid, was[tid], pending, begin, end) && ScanSound(tid, was[tid])
    ensures ScanSound(tid, pending[tid])
  {
    var txp := pending[tid];
    forall i | 0 <= i < |txp.alloctx|
      ensures txp.alloctx[i] <= tid && (txp.lastReleaseBegin != 0 ==> txp.alloctx[i] < txp.lastReleaseBegin)
    {
      var e := PendingPage(txp.ids[i], txp.alloctx[i], tid);
      assert e in EntriesOf(tid, txp);
      if txp != was[tid] {
        assert e in EntriesOf(tid, was[tid]);
        var j :| 0 <= j < |was[tid].ids| && e == PendingPage(was[tid].ids[j], was[tid].alloctx[j], tid);
      }
    }
  }

  lemma ReadyToTake(all: set<PendingPage>, pending: map<Txid, TxPending>, tid: Txid, m: seq<Pgid>)
    requires ListsOk(pending) && tid in pending && PendingOnce(all) && Collected(all, EntriesIn(pending), m)
    ensures |pending[tid].ids| == |pending[tid].alloctx| && Distinct(pending[tid].ids)
    ensures Distinct(m) && Ids(m) !! Ids(pending[tid].ids)
  {
    hide Collected, EntriesOf, EntriesIn, Ids, PageIdsOf;
    EntriesWithout(pending, tid);
    FreedByWithin(EntriesIn(pending), tid);
    IdsOfEntries(tid, pending[tid]);
    CollectedApart(all, EntriesIn(pending), m, EntriesOf(tid, pending[tid]));
    CollectedDistinct(all, EntriesIn(pending), m);
  }

  lemma TookRange(all: set<PendingPage>, pending: map<Txid, TxPending>, tid: Txid, rest: TxPending,
                  begin: Txid, end: Txid, m: seq<Pgid>, moved: seq<Pgid>)
    requires ListsOk(pending) && tid in pending && Collected(all, EntriesIn(pending), m)
    requires begin <= tid <= end && pending[tid].lastReleaseBegin != begin
    requires RangeTaken(tid, pending[tid], begin, end, m, rest, moved)
    ensures var next := if |rest.ids| == 0 then pending - {tid} else pending[tid := rest];
      ListsOk(next) && Collected(all, EntriesIn(next), moved) && Scanned(tid, pending[tid], next, begin, end)
  {
    hide Collected, EntriesIn, Ids, PageIdsOf;
    var mine, left := EntriesOf(tid, pending[tid]), EntriesOf(tid, rest);
    EntriesWithout(pending, tid);
    CollectMore(all, EntriesIn(pending), m, mine - left, moved);
    assert left <= mine <= EntriesIn(pending);
    if |rest.ids| > 0 {
      EntriesWith(pending, tid, rest);
      assert EntriesIn(pending) - mine + left == EntriesIn(pending) - (mine - left);
    } else {
      assert left == {} && mine - left == mine;
    }
  }

  // Where the scan of [begin, end] stands: the transactions in todo are still to come, and m
  // holds the ids of the pages that have left.
  ghost predicate Scanning(was: map<Txid, TxPending>, pending: map<Txid, TxPending>, todo: set<Txid>,
                           begin: Txid, end: Txid, m: seq<Pgid>)
    requires ListsOk(was) && ListsOk(pending)
  {
    && PendingOnce(EntriesIn(was))
    && todo <= pending.Keys <= was.Keys
    && (forall tid :: tid in todo ==> pending[tid] == was[tid])
    && (forall tid :: tid in was && tid !in todo ==> Scanned(tid, was[tid], pending, begin, end))
    && Collected(EntriesIn(was), EntriesIn(pending), m)
  }

  lemma ScanStart(was: map<Txid, TxPending>, begin: Txid, end: Txid)
    requires ListsOk(was) && PendingOnce(EntriesIn(was))
    ensures Scanning(was, was, was.Keys, begin, end, [])
  {
    CollectNone(EntriesIn(was));
  }

  lemma ScanSame(was: map<Txid, TxPending>, pending: map<Txid, TxPending>, todo: set<Txid>,
                 begin: Txid, end: Txid, m: seq<Pgid>, tid: Txid)
    requires ListsOk(was) && ListsOk(pending) && Scanning(was, pending, todo, begin, end, m) && tid in todo
    ensures tid in pending && Distinct(m) && Ids(m) !! Ids(pending[tid].ids)
    ensures tid < begin || tid > end || pending[tid].lastReleaseBegin == begin ==>
      Scanning(was, pending, todo - {tid}, begin, end, m)
  {
    hide Collected, EntriesOf, EntriesIn;
    ReadyToTake(EntriesIn(was), pending, tid, m);
  }

  lemma ScanTook(was: map<Txid, TxPending>, pending: map<Txid, TxPending>, todo: set<Txid>,
                 begin: Txid, end: Txid, m: seq<Pgid>, tid: Txid, rest: TxPending, moved: seq<Pgid>)
    requires ListsOk(was) && ListsOk(pending) && Scanning(was, pending, todo, begin, end, m) && tid in todo
    requires begin <= tid <= end && pending[tid].lastReleaseBegin != begin
    requires RangeTaken(tid, pending[tid], begin, end, m, rest, moved)
    ensures var next := if |rest.ids| == 0 then pending - {tid} else pending[tid := rest];
      ListsOk(next) && Scanning(was, next, todo - {tid}, begin, end, moved)
  {
    hide Collected, EntriesOf, EntriesIn;
    TookRange(EntriesIn(was), pending, tid, rest, begin, end, m, moved);
  }

  // A skipped transaction has nothing left that was allocated in the range.
  lemma SkipHarmless(tid: Txid, txp: TxPending, e: PendingPage, begin: Txid)
    requires |txp.ids| == |txp.alloctx| && ScanSound(tid, txp) && e in EntriesOf(tid, txp) && begin > 0
    ensures txp.lastReleaseBegin == begin ==> e.alloc < begin
  {
  }

  lemma ScanEnd(was: map<Txid, TxPending>, pending: map<Txid, TxPending>, begin: Txid, end: Txid, m: seq<Pgid>)
    requires ListsOk(was) && ListsOk(pending) && Scanning(was, pending, {}, begin, end, m)
    ensures pending.Keys <= was.Keys && EntriesIn(pending) <= EntriesIn(was)
    ensures Collected(EntriesIn(was), EntriesIn(pending), m)
    ensures EntriesIn(was) - (EntriesIn(was) - EntriesIn(pending)) == EntriesIn(pending)
    ensures forall e :: e in EntriesIn(was) ==>
      (e in EntriesIn(pending) <==> !InRange(e, begin, end) || was[e.freed].lastReleaseBegin == begin)
    ensures begin > 0 && (forall tid :: tid in was ==> ScanSound(tid, was[tid])) ==>
      && (forall tid :: tid in pending ==> ScanSound(tid, pending[tid]))
      && (forall e :: e in EntriesIn(pending) ==> !InRange(e, begin, end))
  {
    AllScanned(was, pending, begin, end);
    if begin > 0 && forall tid :: tid in was ==> ScanSound(tid, was[tid]) {
      forall e | e in EntriesIn(pending) ensures !InRange(e, begin, end) {
        SkipHarmless(e.freed, was[e.freed], e, begin);
      }
      forall tid | tid in pending ensures ScanSound(tid, pending[tid]) {
        ScannedSound(was, pending, begin, end, tid);
      }
    }
  }

  method SortTxids(s: seq<Txid>) returns (r: seq<Txid>)
    ensures Sorted(r) && multiset(r) == multiset(s) && forall t :: t in r <==> t in s
  {
    var t := Sort(s);
    forall i | 0 <= i < |t| ensures t[i] <= MAX_TXID {
      assert t[i] in multiset(t);
      var k :| 0 <= k < |s| && s[k] == t[i];
    }
    r := t;
    assert forall x :: x in r <==> x in multiset(r);
  }

  // txp after k more pages, starting at id and allocated by alloc.
  function Appended(txp: TxPending, id: Pgid, alloc: Txid, k: nat): TxPending {
    TxPending(txp.ids + seq(k, i requires 0 <= i < k => id + i), txp.alloctx + seq(k, i requires 0 <= i < k => alloc),
              txp.lastReleaseBegin)
  }

  // The pending pages of txid, none if there is no entry.
  function PendingBy(pending: map<Txid, TxPending>, txid: Txid): TxPending {
    if txid in pending then pending[txid] else TxPending([], [], 0)
  }

  lemma PendingByIs(pending: map<Txid, TxPending>, txid: Txid, txp: TxPending)
    requires txp == if txid in pending then pending[txid] else TxPending([], [], 0)
    ensures txp == PendingBy(pending, txid)
  {
  }

  lemma AppendedNone(txp: TxPending, id: Pgid, alloc: Txid)
    ensures Appended(txp, id, alloc, 0) == txp && Interval(id, 0) == {}
  {
  }

  lemma AppendedMore(txp: TxPending, id: Pgid, alloc: Txid, k: nat)
    ensures var one := Appended(txp, id, alloc, k);
      Appended(txp, id, alloc, k + 1) == TxPending(one.ids + [id + k], one.alloctx + [alloc], one.lastReleaseBegin)
    ensures Interval(id, k + 1) == Interval(id, k) + {id + k}
  {
  }

  lemma AppendedEntries(txid: Txid, txp: TxPending, id: Pgid, alloc: Txid, n: nat)
    requires |txp.ids| == |txp.alloctx| && Distinct(txp.ids) && Ids(txp.ids) !! Interval(id, n)
    ensures var r := Appended(txp, id, alloc, n);
      && |r.ids| == |r.alloctx| == |txp.ids| + n && Distinct(r.ids)
      && EntriesOf(txid, r) == EntriesOf(txid, txp) + (set q | q in Interval(id, n) :: PendingPage(q, alloc, txid))
  {
    var r := Appended(txp, id, alloc, n);
    forall i, j | 0 <= i < j < |r.ids| ensures r.ids[i] != r.ids[j] {
      if i < |txp.ids| <= j { assert r.ids[i] in Ids(txp.ids) && r.ids[j] in Interval(id, n); }
    }
    forall e ensures e in EntriesOf(txid, r) <==>
      e in EntriesOf(txid, txp) || (e.id in Interval(id, n) && e == PendingPage(e.id, alloc, txid))
    {
      if e in EntriesOf(txid, txp) {
        var i :| 0 <= i < |txp.ids| && e == PendingPage(txp.ids[i], txp.alloctx[i], txid);
        assert r.ids[i] == e.id && r.alloctx[i] == e.alloc;
      }
      if e.id in Interval(id, n) && e == PendingPage(e.id, alloc, txid) {
        var i := |txp.ids| + (e.id - id);
        assert r.ids[i] == e.id && r.alloctx[i] == alloc;
      }
    }
  }

  lemma FreedPages(pending: map<Txid, TxPending>, txid: Txid, id: Pgid, alloc: Txid, n: nat, free: set<Pgid>)
    requires ListsOk(pending) && PendingOk(EntriesIn(pending), free)
    requires n > 0 && id > 1 && Interval(id, n) !! free + PageIdsOf(EntriesIn(pending))
    ensures var next := pending[txid := Appended(PendingBy(pending, txid), id, alloc, n)];
      var more := set q | q in Interval(id, n) :: PendingPage(q, alloc, txid);
      && ListsOk(next) && EntriesIn(next) == EntriesIn(pending) + more
      && PendingOk(EntriesIn(next), free)
      && PageIdsOf(EntriesIn(next)) == PageIdsOf(EntriesIn(pending)) + Interval(id, n)
  {
    hide EntriesOf, Interval, Appended, EntriesIn;
    var txp := PendingBy(pending, txid);
    var r := Appended(txp, id, alloc, n);
    var more := set q | q in Interval(id, n) :: PendingPage(q, alloc, txid);
    IdsOfEntries(txid, txp);
    assert Ids(txp.ids) !! Interval(id, n) by {
      if txid in pending {
        EntriesWithout(pending, txid);
        FreedByWithin(EntriesIn(pending), txid);
      }
    }
    AppendedEntries(txid, txp, id, alloc, n);
    EntriesWith(pending, txid, r);
    if txid in pending {
      EntriesWithout(pending, txid);
      FreedByWithin(EntriesIn(pending), txid);
    } else {
      NoEntries(txid);
    }
    assert EntriesIn(pending[txid := r]) == EntriesIn(pending) + more;
    MoreIds(EntriesIn(pending), id, alloc, txid, n);
  }

  lemma NoEntries(txid: Txid)
    ensures EntriesOf(txid, TxPending([], [], 0)) == {}
  {
  }

  lemma MoreIds(entries: set<PendingPage>, id: Pgid, alloc: Txid, txid: Txid, n: nat)
    ensures PageIdsOf(entries + set q | q in Interval(id, n) :: PendingPage(q, alloc, txid)) == PageIdsOf(entries) + Interval(id, n)
  {
    var more := set q | q in Interval(id, n) :: PendingPage(q, alloc, txid);
    forall q | q in Interval(id, n) ensures q in PageIdsOf(entries + more) {
      assert PendingPage(q, alloc, txid) in more;
    }
  }

  lemma NothingMoved(c: Catalog)
    ensures Moved(c, c.pending - c.pending) == c
  {
    assert c.pending - c.pending == {};
  }

  ghost predicate Bounded(readers: seq<Txid>, tids: set<Txid>) {
    && (forall r :: r in readers ==> 0 < r < MAX_TXID)
    && (forall tid :: tid in tids ==> 0 < tid < MAX_TXID)
  }

  ghost predicate PendingOk(entries: set<PendingPage>, free: set<Pgid>) {
    && PendingOnce(entries)
    && (forall e :: e in entries ==> e.id > 1 && e.id !in free)
    && (forall p :: p in free ==> p > 1)
  }

  // The allocation table after the first i pages of txp are back in use.
  function Restored(allocs: map<Pgid, Txid>, txp: TxPending, i: nat): map<Pgid, Txid>
    requires i <= |txp.ids| == |txp.alloctx|
  {
    if i == 0 then allocs
    else
      var before := Restored(allocs, txp, i - 1);
      if txp.alloctx[i - 1] == 0 then before else before[txp.ids[i - 1] := txp.alloctx[i - 1]]
  }

  lemma {:induction false} RestoredAt(allocs: map<Pgid, Txid>, txp: TxPending, i: nat, p: Pgid)
    requires i <= |txp.ids| == |txp.alloctx| && Distinct(txp.ids)
    ensures forall k :: 0 <= k < i && txp.ids[k] == p && txp.alloctx[k] != 0 ==>
      p in Restored(allocs, txp, i) && Restored(allocs, txp, i)[p] == txp.alloctx[k]
    ensures (forall k :: 0 <= k < i && txp.ids[k] == p ==> txp.alloctx[k] == 0) ==>
      (p in Restored(allocs, txp, i) <==> p in allocs) && (p in allocs ==> Restored(allocs, txp, i)[p] == allocs[p])
  {
    if i > 0 { RestoredAt(allocs, txp, i - 1, p); }
  }

  lemma RestoredAll(allocs: map<Pgid, Txid>, tid: Txid, txp: TxPending)
    requires |txp.ids| == |txp.alloctx| && Distinct(txp.ids)
    ensures Restored(allocs, txp, |txp.ids|) == allocs + BackInUse(EntriesOf(tid, txp))
  {
    hide Restored, EntriesOf;
    var all := EntriesOf(tid, txp);
    var mine := BackInUse(all);
    var r := Restored(allocs, txp, |txp.ids|);
    IdsOfEntries(tid, txp);
    forall p ensures (p in r <==> p in allocs + mine) && (p in r ==> r[p] == (allocs + mine)[p]) {
      RestoredAt(allocs, txp, |txp.ids|, p);
      if p in PageIdsOf(all) {
        var e := EntryOf(all, p);
        EntryAt(tid, txp, e);
        var k :| 0 <= k < |txp.ids| && txp.ids[k] == e.id && txp.alloctx[k] == e.alloc;
      }
    }
  }

  // What is left in the lists and in the lookup table when txid is taken out.
  lemma WithoutTx(pending: map<Txid, TxPending>, txid: Txid, free: set<Pgid>)
    requires ListsOk(pending) && txid in pending && PendingOk(EntriesIn(pending), free)
    ensures ListsOk(pending - {txid}) && PendingOk(EntriesIn(pending - {txid}), free)
    ensures |pending[txid].ids| == |pending[txid].alloctx| && Distinct(pending[txid].ids)
    ensures EntriesOf(txid, pending[txid]) == FreedBy(EntriesIn(pending), txid) != {}
    ensures (forall e :: e in FreedBy(EntriesIn(pending), txid) ==> e.alloc != txid) ==> txid !in pending[txid].alloctx
    ensures EntriesIn(pending - {txid}) == EntriesIn(pending) - FreedBy(EntriesIn(pending), txid)
    ensures free + PageIdsOf(EntriesIn(pending - {txid})) == free + PageIdsOf(EntriesIn(pending)) - Ids(pending[txid].ids)
  {
    var mine := EntriesOf(txid, pending[txid]);
    EntriesWithout(pending, txid);
    IdsOfEntries(txid, pending[txid]);
    assert forall i :: 0 <= i < |pending[txid].ids| ==> PendingPage(pending[txid].ids[i], pending[txid].alloctx[i], txid) in mine;
    assert PendingPage(pending[txid].ids[0], pending[txid].alloctx[0], txid) in mine;
    hide EntriesOf, EntriesIn;
    forall p ensures p in PageIdsOf(EntriesIn(pending) - mine) <==> p in PageIdsOf(EntriesIn(pending)) && p !in PageIdsOf(mine) {
    }
  }

  lemma NothingFreed(pending: map<Txid, TxPending>, txid: Txid)
    requires ListsOk(pending) && txid !in pending
    ensures FreedBy(EntriesIn(pending), txid) == {} && pending - {txid} == pending
  {
  }

  lemma SwappedOut(s: seq<Txid>, i: nat, tids: set<Txid>)
    requires i < |s| && Bounded(s, tids)
    ensures Bounded(s[i := s[|s| - 1]][..|s| - 1], tids)
    ensures multiset(s[i := s[|s| - 1]][..|s| - 1]) == multiset(s) - multiset{s[i]}
  {
    var last := |s| - 1;
    var r := s[i := s[last]][..last];
    assert forall k :: 0 <= k < last ==> r[k] in s;
    assert s == s[..last] + [s[last]];
    if i < last {
      assert s[i := s[last]][..last] == s[..i] + [s[last]] + s[i + 1..last];
      assert s[..last] == s[..i] + [s[i]] + s[i + 1..last];
    } else {
      assert s[i := s[last]][..last] == s[..last];
    }
  }

  lemma AllocatedKeeps(entries: set<PendingPage>, free: set<Pgid>, n: nat, pid: Pgid, left: set<Pgid>)
    requires PendingOk(entries, free) && Allocated(free, n, pid, left)
    ensures PendingOk(entries, left) && (pid == 0 ==> left == free)
    ensures pid != 0 ==> left + PageIdsOf(entries) == free + PageIdsOf(entries) - Interval(pid, n)
  {
  }

  lemma InitKeeps(entries: set<PendingPage>, pgids: seq<Pgid>)
    requires PendingOk(entries, {}) && forall id :: id in pgids ==> id > 1
    ensures PendingOnce(entries) && (PendingOk(entries, Ids(pgids)) <==> Ids(pgids) !! PageIdsOf(entries))
  {
    forall e | e in entries ensures e.id in PageIdsOf(entries) { }
  }

  // All pages have been collected when no list is left.
  lemma CollectedAll(all: set<PendingPage>, m: seq<Pgid>)
    requires Collected(all, {}, m)
    ensures Distinct(m) && Ids(m) == PageIdsOf(all)
  {
    assert all - {} == all;
  }

  lemma NoLists()
    ensures EntriesIn(map[]) == {}
  {
  }

  lemma PendingApart(entries: set<PendingPage>, free: set<Pgid>)
    requires PendingOk(entries, free)
    ensures PageIdsOf(entries) !! free
    ensures |free + PageIdsOf(entries)| == |free| + |PageIdsOf(entries)|
  {
  }

  lemma AppendedSound(txid: Txid, txp: TxPending, id: Pgid, alloc: Txid, n: nat)
    requires |txp.ids| == |txp.alloctx| && txp.lastReleaseBegin == 0 && alloc <= txid && ScanSound(txid, txp)
    ensures var r := Appended(txp, id, alloc, n); r.lastReleaseBegin == 0 && ScanSound(txid, r)
  {
  }

  // Every list stands for at least one pending page.
  lemma ListHasEntry(pending: map<Txid, TxPending>, tid: Txid)
    requires ListsOk(pending) && tid in pending
    ensures exists e :: e in EntriesIn(pending) && e.freed == tid
  {
    var e := PendingPage(pending[tid].ids[0], pending[tid].alloctx[0], tid);
    assert e in EntriesOf(tid, pending[tid]);
    assert e in EntriesIn(pending);
  }
}
