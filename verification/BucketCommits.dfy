// A bucket's tree on the pages of the database (environment/bbolt/tx.go): what a commit leaves for the next
// reader, and what the readers of older snapshots keep. How the bytes of a page are read is a parameter.
module BucketCommits {
  import opened Database
  import opened Levels
  import opened Options
  import opened PageIds
  import opened PendingLists
  import opened SharedFreelist
  import opened StoredTrees
  import opened Trees
  import Bounds
  import Isolation
  import KeyOrder
  import NodeCaches
  import Protocol
  import Rebalance

  // The pages of a snapshot as they are on disk.
  ghost function OnDisk(disk: map<Pgid, Protocol.Content>, ids: set<Pgid>, read: Protocol.Content -> Page): Store {
    Store(map p | p in ids && p in disk :: read(disk[p]), map[])
  }

  ghost predicate SamePages(s: Store, t: Store, ids: seq<Pgid>) {
    forall p :: p in ids ==> t.Inodes(p) == s.Inodes(p)
  }

  // A tree is determined by its own pages.
  lemma {:induction false} TreeFrame(s: Store, t: Store, q: Pgid, h: nat)
    requires Whole(s, [q], h) && SamePages(s, t, TreeIds(s, [q], h))
    ensures TreeAt(t, q, h) == TreeAt(s, q, h)
    decreases h
  {
    hide Layered, Distinct, TreeIds, Whole;
    Bounds.TopIn(s, q, h);
    if h > 0 {
      var inodes := s.Inodes(q);
      forall i | 0 <= i < |inodes| ensures TreeAt(t, inodes[i].pgid, h - 1) == TreeAt(s, inodes[i].pgid, h - 1) {
        assert KidsOf(s, q)[i] == inodes[i].pgid;
        Bounds.KidSubtrees(s, q, h, i);
        TreeFrame(s, t, inodes[i].pgid, h - 1);
      }
      assert ElemsAt(t, t.Inodes(q), h) == ElemsAt(s, inodes, h);
    }
  }

  // The bucket's tree before the commit, page by page: a new page is among the data to be written, and any
  // other one is on disk.
  ghost predicate Backed(s: Protocol.State, store: Store, ids: seq<Pgid>, data: map<Pgid, Protocol.Content>, read: Protocol.Content -> Page) {
    s.writer.Some? && forall p :: p in ids ==> BackedAt(s, store, p, data, read)
  }

  ghost predicate BackedAt(s: Protocol.State, store: Store, p: Pgid, data: map<Pgid, Protocol.Content>, read: Protocol.Content -> Page)
    requires s.writer.Some?
  {
    && p in s.writer.value.blocks && s.Current().freelist != Some(p) && p in store.pages
    && if p in data then read(data[p]) == store.pages[p] else p in s.disk && read(s.disk[p]) == store.pages[p]
  }

  lemma BackedPage(s: Protocol.State, t: Protocol.State, store: Store, p: Pgid, data: map<Pgid, Protocol.Content>, pageSize: nat,
      sync: bool, read: Protocol.Content -> Page)
    requires Committed(s, t, data, pageSize, sync) && data.Keys == Protocol.NewPages(s.writer.value.blocks, s.Current().blocks)
    requires BackedAt(s, store, p, data, read) && store.nodes == map[]
    ensures OnDisk(t.disk, Protocol.Pages(t.Current().blocks), read).Inodes(p) == store.Inodes(p)
  {
    hide ListsFree, SnapsKept;
    var before, after := s.writer.value.blocks, t.Current().blocks;
    assert p in Protocol.Block(before, p) && p in Protocol.Pages(before);
    assert p in Protocol.Block(after, p) && p in Protocol.Pages(after);
  }

  // The snapshot's pages are the same, and hold the same.
  ghost predicate Unmoved(s: Protocol.State, t: Protocol.State, r: Txid, read: Protocol.Content -> Page) {
    && r in s.snaps && r in t.snaps && t.snaps[r] == s.snaps[r]
    && OnDisk(t.disk, s.snaps[r].pages, read) == OnDisk(s.disk, s.snaps[r].pages, read)
  }

  lemma ReadersKept(s: Protocol.State, t: Protocol.State, r: Txid, read: Protocol.Content -> Page)
    requires Protocol.Inv(s) && Protocol.Inv(t) && SnapsKept(s, t) && t.cat.readers == s.cat.readers && r in s.cat.readers
    ensures Unmoved(s, t, r, read)
  {
    hide Protocol.CatalogOk, Protocol.WriterOk, Protocol.WritingOk, Protocol.Accounted, Protocol.StoredOk, Protocol.Visible;
    assert r in s.Open() && r in t.Open();
  }

  // How a transaction on the bucket comes to be backed: its pages were on disk, those given back are all that
  // the writer's tree has lost of them, and the pages written are new in the writer's tree.
  lemma {:induction false} HandedOver(s: Protocol.State, before: Store, oldRoot: Pgid, oldHeight: nat, after: Store, root: Pgid, h: nat,
      freed: seq<Pgid>, written: seq<Pgid>, data: map<Pgid, Protocol.Content>, read: Protocol.Content -> Page)
    requires Rebalance.Sound(before, oldRoot, oldHeight, None) && 0 !in written
    requires Rebalance.Pages(after, root, h, freed) + NodeCaches.Unpaged(oldRoot)
      == multiset(TreeIds(before, [oldRoot], oldHeight)) + multiset(written)
    requires forall p :: p in before.pages ==> p in after.pages && after.pages[p] == before.pages[p]
    requires s.writer.Some? && data.Keys == Protocol.NewPages(s.writer.value.blocks, s.Current().blocks)
    requires forall p :: p in TreeIds(before, [oldRoot], oldHeight) && p != 0 ==>
      && OnDiskAt(s, before, p, read) && (p !in freed ==> p in s.writer.value.blocks)
    requires forall p :: p in written ==> p in data && BackedAt(s, after, p, data, read)
    ensures Backed(s, after, TreeIds(after, [root], h), data, read)
  {
    hide TreeIds, BackedAt, OnDiskAt, Protocol.NewPages, Rebalance.Sound;
    OnlyRootInline(before, oldRoot, oldHeight);
    var old', new' := TreeIds(before, [oldRoot], oldHeight), TreeIds(after, [root], h);
    forall p | p in new' ensures BackedAt(s, after, p, data, read) {
      Counted(old', new', freed, written, oldRoot, p);
      if p !in written { StillBacked(s, before, after, p, data, read); }
    }
  }

  lemma OnlyRootInline(s: Store, root: Pgid, h: nat)
    requires Rebalance.Sound(s, root, h, None)
    ensures Distinct(TreeIds(s, [root], h)) && (0 in TreeIds(s, [root], h) ==> root == 0)
  {
    hide TreeIds;
    var ids := TreeIds(s, [root], h);
    if 0 in ids { assert Rebalance.StockedAt(s, root, None, ids, 0); }
  }

  ghost predicate OnDiskAt(s: Protocol.State, store: Store, p: Pgid, read: Protocol.Content -> Page) {
    && p in s.Current().blocks && s.Current().freelist != Some(p)
    && p in store.pages && p in s.disk && read(s.disk[p]) == store.pages[p]
  }

  lemma Counted(before: seq<Pgid>, after: seq<Pgid>, freed: seq<Pgid>, written: seq<Pgid>, oldRoot: Pgid, p: Pgid)
    requires Distinct(before) && (0 in before ==> oldRoot == 0) && 0 !in written && p in after
    requires multiset(after) + multiset(freed) + NodeCaches.Unpaged(oldRoot) == multiset(before) + multiset(written)
    ensures p in written || (p in before && p != 0 && p !in freed)
  {
    DistinctCount(before);
    var all := multiset(after) + multiset(freed) + NodeCaches.Unpaged(oldRoot);
    assert all[p] == multiset(before)[p] + multiset(written)[p];
    assert multiset(after)[p] > 0 && (p in freed ==> multiset(freed)[p] > 0);
  }

  lemma StillBacked(s: Protocol.State, before: Store, after: Store, p: Pgid, data: map<Pgid, Protocol.Content>, read: Protocol.Content -> Page)
    requires s.writer.Some? && data.Keys == Protocol.NewPages(s.writer.value.blocks, s.Current().blocks)
    requires OnDiskAt(s, before, p, read) && p in s.writer.value.blocks
    requires p in before.pages ==> p in after.pages && after.pages[p] == before.pages[p]
    ensures BackedAt(s, after, p, data, read)
  {
    assert p in Protocol.Block(s.Current().blocks, p) && p in Protocol.Pages(s.Current().blocks);
  }

  // A commit of a bucket: the next reader finds on disk the tree with the bucket's items, fit for search,
  // reverse iteration and the checker; open readers find theirs as before.
  method CommitBucket(db: DB, c: NodeCaches.NodeCache, data: map<Pgid, Protocol.Content>, pageSize: nat, sync: bool,
      ghost read: Protocol.Content -> Page)
    requires db.Valid() && db.rwtx.Some? && !db.rwtx.value.writing && db.Abs().WriterId() < MAX_TXID && pageSize > 0
    requires data.Keys == Protocol.NewPages(db.rwtx.value.blocks, db.Abs().Current().blocks)
    requires db.Abs().Current().freelist.Some? ==> db.Abs().Current().freelist.value in db.rwtx.value.blocks
    requires c.Valid(None) && c.nodes == map[]
    requires Backed(db.Abs(), c.S(), TreeIds(c.S(), [c.root], c.height), data, read)
    modifies db, db.freelist`pending, db.freelist`allocs, db.freelist`cache, Footprint(db.freelist.backend)
    ensures db.Valid() && Committed(old(db.Abs()), db.Abs(), data, pageSize, sync)
    ensures var t := TreeAt(OnDisk(db.disk, Protocol.Pages(db.Abs().Current().blocks), read), c.root, c.height);
      && Items(t) == old(c.Contents()) && Rooted(t) && Ordered(t)
      && (Items(t) != [] ==> Filled(t))
      && KeyOrder.Passes(t, None, None)
    ensures forall r :: r in old(db.Abs()).cat.readers ==> Unmoved(old(db.Abs()), db.Abs(), r, read)
  {
    hide Rebalance.Sound, Items, Ordered, Rooted, Filled, Leaves, TreeAt, TreeIds, KeyOrder.Passes, Committed, BackedAt, OnDisk,
      Protocol.Inv, ListsOk, EntriesIn, BackendOk, FreeIds, PendingOk, ScanSound, Protocol.NewPages, Protocol.Pages;
    ghost var s, store, root, h := db.Abs(), c.S(), c.root, c.height;
    db.Commit(data, pageSize, sync);
    ghost var t := db.Abs();
    ghost var disk := OnDisk(t.disk, Protocol.Pages(t.Current().blocks), read);
    forall p | p in TreeIds(store, [root], h) ensures disk.Inodes(p) == store.Inodes(p) {
      BackedPage(s, t, store, p, data, pageSize, sync, read);
    }
    SoundIsWhole(store, root, h);
    TreeFrame(store, disk, root, h);
    CommittedTree(store, root, h);
    KeptSnaps(s, t, data, pageSize, sync);
    forall r | r in s.cat.readers ensures Unmoved(s, t, r, read) { ReadersKept(s, t, r, read); }
  }

  lemma SoundIsWhole(s: Store, root: Pgid, h: nat)
    requires Rebalance.Sound(s, root, h, None)
    ensures Whole(s, [root], h)
  {
  }

  lemma KeptSnaps(s: Protocol.State, t: Protocol.State, data: map<Pgid, Protocol.Content>, pageSize: nat, sync: bool)
    requires Committed(s, t, data, pageSize, sync)
    ensures SnapsKept(s, t) && t.cat.readers == s.cat.readers
  {
  }

  // ---- Whole runs ----

  // A reader finds the same trees on disk for as long as it is open, whatever is written meanwhile.
  lemma {:induction false} ReadersKeepTrees(states: seq<Protocol.State>, events: seq<Protocol.Event>, i: nat, j: nat, r: Txid,
      read: Protocol.Content -> Page)
    requires Protocol.Run(states, events) && i <= j < |states|
    requires forall k :: i <= k <= j ==> r in states[k].cat.readers
    ensures Unmoved(states[i], states[j], r, read)
  {
    hide Protocol.Run;
    Isolation.ReadersAreIsolated(states, events, i, j, r);
  }

  // Until the next meta is written, the last commit's trees are what is on disk, through any number of page
  // writes, rollbacks, crashes and reopenings.
  lemma {:induction false} LastCommitStays(states: seq<Protocol.State>, events: seq<Protocol.Event>, i: nat, j: nat,
      read: Protocol.Content -> Page)
    requires Protocol.Run(states, events) && i <= j < |states|
    requires forall k :: i <= k < j ==> events[k] != Protocol.WriteMeta
    ensures states[j].Current() == states[i].Current() && Unmoved(states[i], states[j], states[i].Current().txid, read)
    decreases j - i
  {
    hide Protocol.Run, Protocol.Next, Protocol.Inv, Protocol.Intact;
    Isolation.SnapshotsSurvive(states, events, i, states[i].Current().txid);
    Isolation.SnapshotsSurvive(states, events, j, states[j].Current().txid);
    if i < j {
      LastCommitStays(states, events, i, j - 1, read);
      Protocol.RunNext(states, events, j - 1);
      Isolation.CommitIsAtomic(states[j - 1], events[j - 1], states[j]);
      OnlyMetaRecords(states[j - 1], events[j - 1], states[j]);
    }
    BothIntact(states[i].disk, states[j].disk, states[i].snaps[states[i].Current().txid], read);
  }

  lemma OnlyMetaRecords(s: Protocol.State, e: Protocol.Event, t: Protocol.State)
    requires Protocol.Next(s, e, t) && e != Protocol.WriteMeta
    ensures t.snaps == s.snaps
  {
  }

  lemma BothIntact(a: map<Pgid, Protocol.Content>, b: map<Pgid, Protocol.Content>, snap: Protocol.Snapshot, read: Protocol.Content -> Page)
    requires Protocol.Intact(a, snap) && Protocol.Intact(b, snap)
    ensures OnDisk(a, snap.pages, read) == OnDisk(b, snap.pages, read)
  {
  }
}
