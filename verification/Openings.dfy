// Opening a database again (loadFreelist and freepages of environment/bbolt/db.go): without a stored freelist
// the buckets are walked for the pages that none of them reaches.
module Openings {
  import opened Database
  import opened Options
  import opened PageChecks
  import opened PageIds
  import opened PageTrees
  import opened PendingLists
  import opened SharedFreelist
  import Protocol

  // The freelist is read or, when there is none, found; only keys out of order stop that.
  method Open(db: DB, useHashMap: bool, root: BucketTree) returns (panics: bool)
    requires db.Valid()
    requires db.Abs().Current().freelist.None? ==> Enumerates(PagesOf(root), db.Abs().Current())
    modifies db`freelist, db`rwtx, db`lost
    ensures panics <==> old(db.Abs()).Current().freelist.None? && !KeysPass(root)
    ensures panics ==> db.Valid() && db.Abs() == old(db.Abs())
    ensures !panics ==> db.Valid() && Protocol.Next(old(db.Abs()), Protocol.Reopen, db.Abs())
    ensures !panics ==> fresh(db.freelist) && fresh(Footprint(db.freelist.backend))
  {
    hide Protocol.Next, Protocol.Inv, Enumerates, PagesOf, TreesOf, Due, Covers, KeysPass, StrictlySorted, Protocol.Pages,
      Protocol.Usable, ListsOk, EntriesIn, BackendOk, FreeIds, PendingOk, ScanSound, Bounded;
    var m := db.CurrentMeta();
    var fids := [];
    panics := false;
    if m.freelist.None? {
      UnreachedIsFree(db.Abs(), root);
      panics, fids := FreePages(m.hwm, root);
      if panics { return; }
      assert Ids(fids) == Unreached(m);
    }
    db.Reopen(useHashMap, fids);
  }
}
