// The transaction protocol of environment/bbolt/db.go and environment/bbolt/tx.go as a transition
// system: one writer, many readers, page writes one at a time, the meta write last, and a crash
// with recovery possible between any two steps.
module Protocol {
  import opened Options
  import opened PageIds
  import opened Reclaim


  // What a page on disk holds: tree data, or the ids of a freelist page.
  datatype Content = TreePage(data: seq<int>) | FreelistPage(ids: set<Pgid>)

  // The pages reachable from a meta: the first page of each block, and its overflow count.
  type Blocks = map<Pgid, nat>

  function Block(b: Blocks, s: Pgid): set<Pgid>
    requires s in b
  {
    Interval(s, b[s] + 1)
  }

  ghost function Pages(b: Blocks): set<Pgid> {
    set s, p | s in b && p in Block(b, s) :: p
  }

  // All pages below a high water mark, but for the two meta pages.
  function Usable(hwm: Pgid): (r: set<Pgid>)
    ensures forall p :: p in r <==> 2 <= p < hwm
  {
    Interval(0, hwm) - {0, 1}
  }

  datatype Meta = Meta(txid: Txid, hwm: Pgid, blocks: Blocks, freelist: Option<Pgid>)

  function Newer(meta0: Meta, meta1: Meta): Meta {
    if meta0.txid > meta1.txid then meta0 else meta1
  }

  // A committed snapshot, as of its commit: its pages, what they held, and the pages below the
  // high water mark that aborted transactions had lost by then.
  datatype Snapshot = Snapshot(pages: set<Pgid>, disk: map<Pgid, Content>, lost: set<Pgid>)

  // The read-write transaction. Its tree is edited first; then its new pages, dirty, are written
  // in any order, those in todo still being to come.
  datatype Writer = Writer(hwm: Pgid, blocks: Blocks, writing: bool, freelist: Option<Pgid>,
                           dirty: map<Pgid, Content>, todo: set<Pgid>)

  datatype State = State(meta0: Meta, meta1: Meta, disk: map<Pgid, Content>, cat: Catalog,
                         writer: Option<Writer>, snaps: map<Txid, Snapshot>, lost: set<Pgid>)
  {
    // DB.meta: the newer of the two.
    function Current(): Meta {
      Newer(meta0, meta1)
    }

    // The id of the read-write transaction.
    function WriterId(): nat {
      Current().txid + 1
    }

    function TreeBlocks(): Blocks {
      if writer.Some? then writer.value.blocks else Current().blocks
    }

    function HighWater(): Pgid {
      if writer.Some? then writer.value.hwm else Current().hwm
    }

    // The snapshots that must survive: those of open readers and the last committed one.
    function Open(): set<Txid> {
      (set r | r in cat.readers) + {Current().txid}
    }

    ghost function OpenPages(): set<Pgid> {
      set r, p | r in Open() && r in snaps && p in snaps[r].pages :: p
    }
  }

  datatype Event =
    | BeginRead
    | EndRead(r: Txid)
    | BeginWrite
    | FreePage(id: Pgid)
    | Allocate(n: nat, found: Pgid)
    | StartWriting(dirty: map<Pgid, Content>, freelist: Option<Pgid>)
    | WritePage(id: Pgid)
    | WriteMeta
    | Rollback
    | Reopen

  ghost predicate Initial(s: State) {
    && s.meta0 == Meta(0, 4, map[2 := 0, 3 := 0], Some(2))
    && s.meta1 == Meta(1, 4, map[2 := 0, 3 := 0], Some(2))
    && s.disk.Keys == {2, 3} && s.disk[2] == FreelistPage({})
    && s.cat == Catalog({}, {}, map[], multiset{})
    && s.writer == None && s.lost == {}
    && s.snaps == map[1 := Snapshot({2, 3}, s.disk, {})]
  }

  // The pages that the writer has allocated.
  ghost function NewPages(blocks: Blocks, current: Blocks): set<Pgid> {
    Pages(blocks) - Pages(current)
  }

  ghost predicate Next(s: State, e: Event, t: State) {
    match e
    case BeginRead =>
      t == s.(cat := s.cat.(readers := s.cat.readers + multiset{s.Current().txid}))
    case EndRead(r) =>
      r in s.cat.readers && t == s.(cat := s.cat.(readers := s.cat.readers - multiset{r}))
    case BeginWrite =>
      && s.writer.None? && s.WriterId() < MAX_TXID
      && t == s.(cat := Released(s.cat),
                 writer := Some(Writer(s.Current().hwm, s.Current().blocks, false, None, map[], {})))
    case FreePage(id) =>
      && s.writer.Some? && !s.writer.value.writing && s.WriterId() < MAX_TXID
      && id in s.writer.value.blocks && id in s.Current().blocks
      && t == s.(cat := Freed(s.cat, s.WriterId(), id, s.Current().blocks[id]),
                 writer := Some(s.writer.value.(blocks := s.writer.value.blocks - {id})))
    case Allocate(n, found) =>
      && s.writer.Some? && !s.writer.value.writing && s.WriterId() < MAX_TXID && n > 0
      && Allocated(s.cat.free, n, found, t.cat.free)
      && var w := s.writer.value;
      if found != 0 then
        t == s.(cat := s.cat.(free := t.cat.free, allocs := s.cat.allocs[found := s.WriterId()]),
                writer := Some(w.(blocks := w.blocks[found := n - 1])))
      else
        t == s.(writer := Some(w.(blocks := w.blocks[w.hwm := n - 1], hwm := w.hwm + n)))
    case StartWriting(dirty, freelist) =>
      && s.writer.Some? && !s.writer.value.writing
      && dirty.Keys == NewPages(s.writer.value.blocks, s.Current().blocks)
      && (freelist.Some? ==>
           && freelist.value in s.writer.value.blocks && freelist.value in dirty
           && dirty[freelist.value] == FreelistPage(s.cat.free + PageIdsOf(s.cat.pending)))
      && t == s.(writer := Some(s.writer.value.(writing := true, freelist := freelist, dirty := dirty, todo := dirty.Keys)))
    case WritePage(id) =>
      && s.writer.Some? && s.writer.value.writing && id in s.writer.value.todo && id in s.writer.value.dirty
      && t == s.(disk := s.disk[id := s.writer.value.dirty[id]],
                 writer := Some(s.writer.value.(todo := s.writer.value.todo - {id})))
    case WriteMeta =>
      && s.writer.Some? && s.writer.value.writing && s.writer.value.todo == {} && s.WriterId() < MAX_TXID
      && var w, m := s.writer.value, s.Current();
      var meta := Meta(m.txid + 1, w.hwm, w.blocks, w.freelist);
      && m.txid in s.snaps
      && t == s.(meta0 := if meta.txid % 2 == 0 then meta else s.meta0,
                 meta1 := if meta.txid % 2 == 1 then meta else s.meta1,
                 writer := None,
                 snaps := s.snaps[meta.txid := Snapshot(Pages(w.blocks), s.snaps[m.txid].disk + w.dirty, s.lost)])
    case Rollback =>
      && s.writer.Some? && s.WriterId() < MAX_TXID
      && t == s.(cat := RolledBack(s.cat, s.WriterId()), writer := None,
                 lost := s.lost + (NewPages(s.writer.value.blocks, s.Current().blocks) * Usable(s.Current().hwm)))
    case Reopen =>
      var m := s.Current();
      && m.txid in s.snaps
      && (m.freelist.Some? ==> m.freelist.value in s.disk && s.disk[m.freelist.value].FreelistPage?)
      && var free := if m.freelist.Some? then s.disk[m.freelist.value].ids else Usable(m.hwm) - Pages(m.blocks);
      t == s.(cat := Catalog(free, {}, map[], multiset{}), writer := None,
              lost := if m.freelist.Some? then s.snaps[m.txid].lost else {})
  }

  // ---- The invariant ----

  ghost predicate MetasOk(s: State) {
    && s.meta0.txid % 2 == 0 && s.meta1.txid % 2 == 1
    && s.meta0.txid < MAX_TXID && s.meta1.txid < MAX_TXID
    && s.Current().txid in s.snaps
    && s.snaps[s.Current().txid].pages == Pages(s.Current().blocks)
    && (forall r :: r in s.cat.readers ==> 0 < r <= s.Current().txid && r in s.snaps)
  }

  // Blocks lie below the high water mark and do not overlap.
  ghost predicate BlocksOk(b: Blocks, hwm: Pgid) {
    && (forall s :: s in b ==> 2 <= s && s + b[s] < hwm)
    && (forall s, t :: s in b && t in b && s < t ==> s + b[s] < t)
  }

  // The pages of a snapshot still hold what they held.
  ghost predicate Intact(disk: map<Pgid, Content>, snap: Snapshot) {
    forall p :: p in snap.pages ==> p in disk && p in snap.disk && disk[p] == snap.disk[p]
  }

  // What the catalog says of the pages of snapshot r: none is free, one that is pending was
  // allocated before and freed after r, and one that is not was allocated by r at the latest.
  // A block of the current tree lies in the snapshot wholly or not at all.
  ghost predicate Visible(free: set<Pgid>, pending: set<PendingPage>, allocs: map<Pgid, Txid>,
                          current: Blocks, r: Txid, pages: set<Pgid>) {
    && pages !! free
    && (forall e :: e in pending && e.id in pages ==> e.alloc <= r < e.freed)
    && (forall p :: p in current && p in pages && p in allocs ==> allocs[p] <= r)
    && (forall p :: p in current ==> Block(current, p) <= pages || Block(current, p) !! pages)
  }

  ghost predicate OpenOk(s: State) {
    forall r :: r in s.Open() && r in s.snaps ==>
      && Intact(s.disk, s.snaps[r])
      && Visible(s.cat.free, s.cat.pending, s.cat.allocs, s.Current().blocks, r, s.snaps[r].pages)
      && s.snaps[r].pages <= Usable(s.Current().hwm)
  }

  // No page is both free and pending or pending twice; all lie below the high water mark; no
  // transaction after the writer appears, and the writer has freed pages of the last commit only.
  ghost predicate CatalogOk(free: set<Pgid>, pending: set<PendingPage>, allocs: map<Pgid, Txid>, m: Meta, writing: bool) {
    && PendingOnce(pending) && PageIdsOf(pending) !! free
    && free <= Usable(m.hwm) && PageIdsOf(pending) <= Usable(m.hwm)
    && (forall p :: p in allocs ==> allocs[p] <= m.txid + 1)
    && (forall e :: e in pending ==> e.alloc <= e.freed <= m.txid + 1)
    && (forall e :: e in pending && e.freed == m.txid + 1 ==> writing && e.id in Pages(m.blocks))
  }

  // A block of the writer is one of the last commit or shares no page with an open snapshot.
  ghost predicate BlocksNew(blocks: Blocks, current: Blocks, openPages: set<Pgid>) {
    forall p :: p in blocks ==> (p in current && current[p] == blocks[p]) || Block(blocks, p) !! openPages
  }

  ghost predicate WriterOk(w: Writer, m: Meta, free: set<Pgid>, pending: set<PendingPage>, openPages: set<Pgid>) {
    && m.hwm <= w.hwm && BlocksOk(w.blocks, w.hwm)
    && Pages(w.blocks) !! free + PageIdsOf(pending)
    && BlocksNew(w.blocks, m.blocks, openPages)
  }

  // While it writes: what has been written is on disk, and the freelist page it is about to
  // publish lists the free and the pending pages.
  ghost predicate WritingOk(w: Writer, m: Meta, free: set<Pgid>, pending: set<PendingPage>, disk: map<Pgid, Content>) {
    w.writing ==>
      && w.dirty.Keys == NewPages(w.blocks, m.blocks) && w.todo <= w.dirty.Keys
      && (forall p :: p in w.dirty && p !in w.todo ==> p in disk && disk[p] == w.dirty[p])
      && (w.freelist.Some? ==>
           && w.freelist.value in w.blocks && w.freelist.value in w.dirty
           && w.dirty[w.freelist.value] == FreelistPage(free + PageIdsOf(pending)))
  }

  // Every page below the high water mark is free, pending, in the tree, or lost by an aborted
  // transaction, and only one of these.
  ghost predicate Accounted(hwm: Pgid, free: set<Pgid>, pendingIds: set<Pgid>, tree: set<Pgid>, lost: set<Pgid>) {
    && Usable(hwm) == free + pendingIds + tree + lost
    && lost !! free + pendingIds + tree
  }

  // The freelist page of the last commit lists what neither its tree nor its losses contain.
  ghost predicate StoredOk(m: Meta, snap: Snapshot) {
    && BlocksOk(m.blocks, m.hwm) && m.hwm >= 2
    && snap.lost <= Usable(m.hwm) - Pages(m.blocks)
    && (m.freelist.Some? ==>
         && m.freelist.value in m.blocks && m.freelist.value in snap.disk
         && snap.disk[m.freelist.value] == FreelistPage(Usable(m.hwm) - Pages(m.blocks) - snap.lost))
  }

  ghost predicate Inv(s: State) {
    && MetasOk(s) && OpenOk(s)
    && CatalogOk(s.cat.free, s.cat.pending, s.cat.allocs, s.Current(), s.writer.Some?)
    && (s.writer.Some? ==>
         && WriterOk(s.writer.value, s.Current(), s.cat.free, s.cat.pending, s.OpenPages())
         && WritingOk(s.writer.value, s.Current(), s.cat.free, s.cat.pending, s.disk))
    && Accounted(s.HighWater(), s.cat.free, PageIdsOf(s.cat.pending), Pages(s.TreeBlocks()), s.lost)
    && s.lost <= Usable(s.Current().hwm) && s.lost !! Pages(s.Current().blocks)
    && StoredOk(s.Current(), s.snaps[s.Current().txid])
  }

  lemma InitialInv(s: State)
    requires Initial(s)
    ensures Inv(s)
  {
    hide Block, Pages, Usable, CatalogOk, BlocksOk, Visible, PageIdsOf;
    var b: Blocks := map[2 := 0, 3 := 0];
    InitialPages(b);
    InitialCatalog(s.cat, s.meta1);
    InitialVisible(b);
    assert s.Open() == {1} && s.Current() == s.meta1;
  }

  lemma InitialPages(b: Blocks)
    requires b == map[2 := 0, 3 := 0]
    ensures Pages(b) == {2, 3} && Usable(4) == {2, 3} && BlocksOk(b, 4)
  {
    assert Block(b, 2) == {2} && Block(b, 3) == {3};
  }

  lemma InitialCatalog(cat: Catalog, m: Meta)
    requires cat == Catalog({}, {}, map[], multiset{})
    ensures CatalogOk(cat.free, cat.pending, cat.allocs, m, false) && PageIdsOf(cat.pending) == {}
  {
  }

  lemma InitialVisible(b: Blocks)
    requires b == map[2 := 0, 3 := 0]
    ensures Visible({}, {}, map[], b, 1, {2, 3})
  {
    assert Block(b, 2) == {2} && Block(b, 3) == {3};
  }

  // ---- Readers ----

  lemma FewerOpen(s: State, t: State)
    requires t == s.(cat := s.cat.(readers := t.cat.readers)) && t.Open() <= s.Open()
    requires Inv(s)
    ensures Inv(t)
  {
    hide Intact, Visible, CatalogOk, BlocksOk, WritingOk, Accounted, StoredOk;
    assert t.OpenPages() <= s.OpenPages();
    assert forall r :: r in t.cat.readers ==> r in t.Open();
    assert forall r :: r in t.Open() ==> r in s.cat.readers || r == s.Current().txid;
  }

  lemma ReaderInv(s: State, e: Event, t: State)
    requires Inv(s) && Next(s, e, t) && (e.BeginRead? || e.EndRead?)
    ensures Inv(t)
  {
    hide Inv;
    FewerOpen(s, t);
  }

  // ---- A new writer ----

  // The point of the whole scheme: no page of an open snapshot is releasable.
  lemma HeldNotReleasable(readers: multiset<Txid>, e: PendingPage, r: Txid)
    requires r in readers && e.alloc <= r < e.freed
    ensures !Releasable(readers, e)
  {
    assert Holds(r, e);
  }

  lemma ReleaseVisible(c: Catalog, current: Blocks, m: Txid, r: Txid, pages: set<Pgid>)
    requires Visible(c.free, c.pending, c.allocs, current, r, pages)
    requires r in c.readers || r == m
    requires forall e :: e in c.pending ==> e.freed <= m
    ensures var d := Released(c); Visible(d.free, d.pending, d.allocs, current, r, pages)
  {
    var d := Released(c);
    forall e | e in c.pending && e.id in pages ensures !Releasable(c.readers, e) {
      HeldNotReleasable(c.readers, e, r);
    }
    assert pages !! d.free;
  }

  lemma MovedCatalog(c: Catalog, go: set<PendingPage>, m: Meta)
    requires CatalogOk(c.free, c.pending, c.allocs, m, false) && go <= c.pending
    ensures var d := Moved(c, go);
      && CatalogOk(d.free, d.pending, d.allocs, m, true)
      && d.free + PageIdsOf(d.pending) == c.free + PageIdsOf(c.pending)
  {
    assert c.pending == (c.pending - go) + go;
  }

  lemma BeginWriteInv(s: State, t: State)
    requires Inv(s) && Next(s, BeginWrite, t)
    ensures Inv(t)
  {
    hide Intact, Visible, BlocksOk, CatalogOk, Released, Moved;
    var m := s.Current();
    ReleasedIs(s.cat);
    NoneFreedBy(s.cat.free, s.cat.pending, s.cat.allocs, m);
    assert t.Open() == s.Open();
    forall r | r in t.Open() && r in t.snaps
      ensures Visible(t.cat.free, t.cat.pending, t.cat.allocs, m.blocks, r, t.snaps[r].pages)
    {
      ReleaseVisible(s.cat, m.blocks, m.txid, r, s.snaps[r].pages);
    }
    var go := set e | e in s.cat.pending && Releasable(s.cat.readers, e);
    MovedCatalog(s.cat, go, m);
    assert m.txid in s.Open();
    TreeApart(s.cat.free, s.cat.pending, s.cat.allocs, m, s.snaps[m.txid].pages);
    assert WriterOk(t.writer.value, m, t.cat.free, t.cat.pending, t.OpenPages());
  }

  lemma NoneFreedBy(free: set<Pgid>, pending: set<PendingPage>, allocs: map<Pgid, Txid>, m: Meta)
    requires CatalogOk(free, pending, allocs, m, false)
    ensures forall e :: e in pending ==> e.freed <= m.txid
  {
  }

  lemma ReleasedIs(c: Catalog)
    ensures var go := set e | e in c.pending && Releasable(c.readers, e);
      Released(c) == Moved(c, go) && Released(c).readers == c.readers && Released(c).allocs == c.allocs
  {
  }

  // The last commit's pages are neither free nor pending when no writer has freed any.
  lemma TreeApart(free: set<Pgid>, pending: set<PendingPage>, allocs: map<Pgid, Txid>, m: Meta, pages: set<Pgid>)
    requires Visible(free, pending, allocs, m.blocks, m.txid, pages)
    requires forall e :: e in pending ==> e.freed <= m.txid
    ensures pages !! free + PageIdsOf(pending)
  {
  }

  // ---- Blocks ----

  lemma PagesAdd(b: Blocks, s: Pgid, k: nat)
    requires s !in b
    ensures Pages(b[s := k]) == Pages(b) + Interval(s, k + 1)
  {
    hide Interval;
    var c := b[s := k];
    forall p ensures p in Pages(c) <==> p in Pages(b) + Interval(s, k + 1) {
      if p in Pages(b) {
        var u :| u in b && p in Block(b, u);
        assert u in c && p in Block(c, u);
      }
      if p in Interval(s, k + 1) { assert p in Block(c, s); }
      if p in Pages(c) {
        var u :| u in c && p in Block(c, u);
        assert u != s ==> u in b && p in Block(b, u);
      }
    }
  }

  lemma BlockWithin(b: Blocks, s: Pgid, hwm: Pgid)
    requires BlocksOk(b, hwm) && s in b
    ensures s in Block(b, s) && Block(b, s) <= Pages(b) && Block(b, s) <= Usable(hwm)
  {
    assert forall p :: p in Block(b, s) ==> p in Pages(b);
  }

  lemma PagesDel(b: Blocks, s: Pgid, hwm: Pgid)
    requires BlocksOk(b, hwm) && s in b
    ensures BlocksOk(b - {s}, hwm) && Pages(b - {s}) == Pages(b) - Block(b, s)
  {
    hide Interval;
    var c := b - {s};
    assert c[s := b[s]] == b;
    PagesAdd(c, s, b[s]);
    forall p | p in Pages(c) ensures p !in Block(b, s) {
      var u :| u in c && p in Block(c, u);
    }
  }

  // A block that the writer holds and the last commit has is the same block.
  lemma SameBlock(s: State, id: Pgid)
    requires Inv(s) && s.writer.Some? && id in s.writer.value.blocks && id in s.Current().blocks
    ensures s.writer.value.blocks[id] == s.Current().blocks[id]
    ensures Block(s.Current().blocks, id) <= Pages(s.writer.value.blocks) * Usable(s.Current().hwm) * Pages(s.Current().blocks)
    ensures Pages(s.writer.value.blocks) !! s.cat.free + PageIdsOf(s.cat.pending)
  {
    hide Intact, Visible, CatalogOk, Accounted, WritingOk;
    var m, w := s.Current(), s.writer.value;
    BlockWithin(m.blocks, id, m.hwm);
    BlockWithin(w.blocks, id, w.hwm);
    assert m.txid in s.Open() && id in s.snaps[m.txid].pages;
    assert id in s.OpenPages();
  }

  // ---- Freeing a block ----

  lemma FreedVisible(c: Catalog, current: Blocks, id: Pgid, txid: Txid, r: Txid, pages: set<Pgid>)
    requires Visible(c.free, c.pending, c.allocs, current, r, pages) && id in current && r < txid
    ensures var d := Freed(c, txid, id, current[id]); Visible(d.free, d.pending, d.allocs, current, r, pages)
  {
    hide Interval;
    var d := Freed(c, txid, id, current[id]);
    assert id in Block(current, id);
    forall e | e in d.pending && e.id in pages ensures e.alloc <= r < e.freed {
      if e !in c.pending {
        assert e.id in Block(current, id);
      }
    }
  }

  lemma FreedIds(c: Catalog, txid: Txid, id: Pgid, overflow: nat)
    ensures PageIdsOf(Freed(c, txid, id, overflow).pending) == PageIdsOf(c.pending) + Interval(id, overflow + 1)
  {
    hide Interval;
    var alloc: Txid := if id in c.allocs then c.allocs[id] else 0;
    forall q | q in Interval(id, overflow + 1) ensures q in PageIdsOf(Freed(c, txid, id, overflow).pending) {
      assert PendingPage(q, alloc, txid) in Freed(c, txid, id, overflow).pending;
    }
  }

  lemma FreedCatalog(c: Catalog, m: Meta, id: Pgid, overflow: nat)
    requires CatalogOk(c.free, c.pending, c.allocs, m, true) && m.txid + 1 < MAX_TXID
    requires Interval(id, overflow + 1) <= Pages(m.blocks) * Usable(m.hwm)
    requires Interval(id, overflow + 1) !! c.free + PageIdsOf(c.pending)
    ensures var d := Freed(c, m.txid + 1, id, overflow); CatalogOk(d.free, d.pending, d.allocs, m, true)
  {
    hide Interval;
    var d := Freed(c, m.txid + 1, id, overflow);
    FreedIds(c, m.txid + 1, id, overflow);
    forall e, f | e in d.pending && f in d.pending && e.id == f.id ensures e == f {
      assert e in c.pending ==> e.id in PageIdsOf(c.pending);
      assert f in c.pending ==> f.id in PageIdsOf(c.pending);
    }
  }

  lemma FreePageInv(s: State, id: Pgid, t: State)
    requires Inv(s) && Next(s, FreePage(id), t)
    ensures Inv(t)
  {
    hide Intact, Visible, CatalogOk, BlocksOk, Interval, Freed, PageIdsOf;
    var m, w := s.Current(), s.writer.value;
    var T: Txid := m.txid + 1;
    SameBlock(s, id);
    FreedKeeps(s.cat, T, id, m.blocks[id]);
    FreedCatalog(s.cat, m, id, m.blocks[id]);
    FreedIds(s.cat, T, id, m.blocks[id]);
    PagesDel(w.blocks, id, w.hwm);
    forall r | r in t.Open() && r in t.snaps
      ensures Visible(t.cat.free, t.cat.pending, t.cat.allocs, m.blocks, r, t.snaps[r].pages)
    {
      FreedVisible(s.cat, m.blocks, id, T, r, s.snaps[r].pages);
    }
    assert t.OpenPages() == s.OpenPages();
  }

  lemma FreedKeeps(c: Catalog, txid: Txid, id: Pgid, overflow: nat)
    ensures Freed(c, txid, id, overflow).free == c.free && Freed(c, txid, id, overflow).readers == c.readers
  {
  }

  // ---- Allocating a block ----

  lemma IntervalsApart(a: Pgid, m: nat, b: Pgid, n: nat)
    requires m > 0 && n > 0 && Interval(a, m) !! Interval(b, n)
    ensures a + m <= b || b + n <= a
  {
    var p := if a < b then b else a;
    assert p in Interval(a, m) <==> a <= p < a + m;
    assert p in Interval(b, n) <==> b <= p < b + n;
  }

  // A block that shares no page with the tree does not overlap any of its blocks.
  lemma BlockFits(b: Blocks, hwm: Pgid, start: Pgid, n: nat, more: Pgid)
    requires BlocksOk(b, hwm) && n > 0 && Interval(start, n) !! Pages(b)
    requires 2 <= start && start + n <= more && hwm <= more
    ensures start !in b && BlocksOk(b[start := n - 1], more)
    ensures Pages(b[start := n - 1]) == Pages(b) + Interval(start, n)
  {
    hide Interval, Pages, Block;
    forall s | s in b ensures s + b[s] < start || start + (n - 1) < s {
      BlockClear(b, hwm, s, start, n);
    }
    PagesAdd(b, start, n - 1);
  }

  lemma BlockClear(b: Blocks, hwm: Pgid, s: Pgid, start: Pgid, n: nat)
    requires BlocksOk(b, hwm) && s in b && n > 0 && Interval(start, n) !! Pages(b)
    ensures s + b[s] < start || start + (n - 1) < s
  {
    hide Interval, Pages;
    BlockWithin(b, s, hwm);
    IntervalsApart(s, b[s] + 1, start, n);
  }

  lemma BlocksNewAdd(blocks: Blocks, current: Blocks, openPages: set<Pgid>, start: Pgid, n: nat)
    requires BlocksNew(blocks, current, openPages) && n > 0 && start !in blocks
    requires Interval(start, n) !! openPages
    ensures BlocksNew(blocks[start := n - 1], current, openPages)
  {
    hide Interval;
    var c := blocks[start := n - 1];
    forall p | p in c ensures (p in current && current[p] == c[p]) || Block(c, p) !! openPages {
      if p == start { assert Block(c, p) == Interval(start, n); } else { assert Block(c, p) == Block(blocks, p); }
    }
  }

  // Free pages, and pages beyond the high water mark, belong to no open snapshot.
  lemma UnusedApart(s: State)
    requires Inv(s)
    ensures s.cat.free !! s.OpenPages() && s.OpenPages() <= Usable(s.Current().hwm)
    ensures forall r :: r in s.Open() && r in s.snaps ==> s.snaps[r].pages <= s.OpenPages()
  {
    hide Intact, CatalogOk, BlocksOk, WriterOk, WritingOk, Accounted, StoredOk;
  }

  lemma AllocatedVisible(c: Catalog, current: Blocks, found: Pgid, n: nat, left: set<Pgid>, txid: Txid, r: Txid, pages: set<Pgid>)
    requires Visible(c.free, c.pending, c.allocs, current, r, pages)
    requires n > 0 && found != 0 && Allocated(c.free, n, found, left)
    ensures Visible(left, c.pending, c.allocs[found := txid], current, r, pages)
  {
    assert found in Interval(found, n);
  }

  lemma AllocatedCatalog(c: Catalog, m: Meta, found: Pgid, n: nat, left: set<Pgid>)
    requires CatalogOk(c.free, c.pending, c.allocs, m, true) && m.txid + 1 < MAX_TXID
    requires n > 0 && found != 0 && Allocated(c.free, n, found, left)
    ensures CatalogOk(left, c.pending, c.allocs[found := m.txid + 1], m, true)
    ensures left + Interval(found, n) == c.free && Interval(found, n) !! left + PageIdsOf(c.pending)
    ensures 2 <= found && found + n <= m.hwm
  {
    assert found in Interval(found, n) && found + n - 1 in Interval(found, n);
  }

  lemma AllocateFreeInv(s: State, n: nat, found: Pgid, t: State)
    requires Inv(s) && Next(s, Allocate(n, found), t) && found != 0
    ensures Inv(t)
  {
    hide OpenOk, CatalogOk, BlocksOk, BlocksNew, Interval, Allocated, PageIdsOf, Usable, Pages, StoredOk;
    var m, w := s.Current(), s.writer.value;
    UnusedApart(s);
    AllocatedCatalog(s.cat, m, found, n, t.cat.free);
    BlockFits(w.blocks, w.hwm, found, n, w.hwm);
    BlocksNewAdd(w.blocks, m.blocks, s.OpenPages(), found, n);
    AllocateOpen(s, n, found, t);
    assert t.OpenPages() == s.OpenPages();
  }

  lemma AllocateOpen(s: State, n: nat, found: Pgid, t: State)
    requires Inv(s) && Next(s, Allocate(n, found), t) && found != 0
    ensures OpenOk(t)
  {
    hide Intact, Visible, CatalogOk, WriterOk, WritingOk, Accounted, StoredOk, Allocated, Pages, Usable;
    var m := s.Current();
    forall r | r in t.Open() && r in t.snaps
      ensures Visible(t.cat.free, t.cat.pending, t.cat.allocs, m.blocks, r, t.snaps[r].pages)
    {
      AllocatedVisible(s.cat, m.blocks, found, n, t.cat.free, m.txid + 1, r, s.snaps[r].pages);
    }
  }

  lemma AllocateGrowInv(s: State, n: nat, t: State)
    requires Inv(s) && Next(s, Allocate(n, 0), t)
    ensures Inv(t)
  {
    hide OpenOk, BlocksOk, BlocksNew, Interval, Allocated, CatalogOk, StoredOk, PageIdsOf;
    var m, w := s.Current(), s.writer.value;
    OpenStays(s, t);
    UnusedApart(s);
    BlockWithinHighWater(s);
    HighWaterAtLeast(s);
    BlockFits(w.blocks, w.hwm, w.hwm, n, w.hwm + n);
    BlocksNewAdd(w.blocks, m.blocks, s.OpenPages(), w.hwm, n);
    UsableGrows(w.hwm, n);
    assert t.OpenPages() == s.OpenPages();
  }

  lemma OpenStays(s: State, t: State)
    requires OpenOk(s) && t == s.(writer := t.writer)
    ensures OpenOk(t)
  {
    hide Intact, Visible, Usable;
  }

  lemma HighWaterAtLeast(s: State)
    requires Inv(s) && s.writer.Some?
    ensures 2 <= s.Current().hwm <= s.writer.value.hwm
    ensures s.cat.free <= Usable(s.Current().hwm) && PageIdsOf(s.cat.pending) <= Usable(s.Current().hwm)
  {
    hide OpenOk, WritingOk, Accounted, PageIdsOf, Usable;
  }

  lemma UsableGrows(hwm: Pgid, n: nat)
    requires hwm >= 2
    ensures Usable(hwm + n) == Usable(hwm) + Interval(hwm, n) && Usable(hwm) !! Interval(hwm, n)
  {
  }

  lemma BlockWithinHighWater(s: State)
    requires Inv(s) && s.writer.Some?
    ensures Pages(s.writer.value.blocks) <= Usable(s.writer.value.hwm)
    ensures Usable(s.Current().hwm) <= Usable(s.writer.value.hwm)
  {
    hide Intact, Visible, CatalogOk, BlocksOk, BlocksNew, WritingOk, StoredOk;
  }

  // ---- New pages ----

  // Giving up a block of the last commit changes nothing about the new pages.
  lemma NewPagesKept(s: State, id: Pgid)
    requires Inv(s) && s.writer.Some? && id in s.writer.value.blocks && id in s.Current().blocks
    ensures NewPages(s.writer.value.blocks - {id}, s.Current().blocks) == NewPages(s.writer.value.blocks, s.Current().blocks)
  {
    hide OpenOk, CatalogOk, WritingOk, Accounted, StoredOk, Pages, Interval;
    SameBlock(s, id);
    PagesDel(s.writer.value.blocks, id, s.writer.value.hwm);
  }

  // A block from the freelist or from beyond the high water mark is new as a whole.
  lemma NewPagesAdded(s: State, n: nat, found: Pgid, t: State)
    requires Inv(s) && Next(s, Allocate(n, found), t)
    ensures var start := if found != 0 then found else s.writer.value.hwm;
      start !in s.writer.value.blocks && t.writer.Some? &&
      NewPages(t.writer.value.blocks, s.Current().blocks) == NewPages(s.writer.value.blocks, s.Current().blocks) + Interval(start, n)
      && Interval(start, n) !! NewPages(s.writer.value.blocks, s.Current().blocks)
  {
    hide CatalogOk, WritingOk, Intact, Visible, BlocksOk, BlocksNew, Pages, Interval, PageIdsOf, Allocated;
    var m, w := s.Current(), s.writer.value;
    UnusedApart(s);
    BlockWithinHighWater(s);
    assert m.txid in s.Open() && s.snaps[m.txid].pages == Pages(m.blocks);
    if found != 0 {
      AllocatedCatalog(s.cat, m, found, n, t.cat.free);
      BlockFits(w.blocks, w.hwm, found, n, w.hwm);
    } else {
      BlockFits(w.blocks, w.hwm, w.hwm, n, w.hwm + n);
    }
  }

  // ---- Writing pages ----

  lemma StartWritingInv(s: State, dirty: map<Pgid, Content>, freelist: Option<Pgid>, t: State)
    requires Inv(s) && Next(s, StartWriting(dirty, freelist), t)
    ensures Inv(t)
  {
    hide Intact, Visible, CatalogOk, BlocksOk, BlocksNew, NewPages, Accounted, StoredOk;
    assert t.OpenPages() == s.OpenPages();
  }

  // The pages that the writer has allocated belong to no open snapshot.
  lemma NewPagesApart(blocks: Blocks, current: Blocks, openPages: set<Pgid>)
    requires BlocksNew(blocks, current, openPages)
    ensures NewPages(blocks, current) !! openPages
  {
    hide Interval;
    forall p | p in NewPages(blocks, current) ensures p !in openPages {
      var s :| s in blocks && p in Block(blocks, s);
      assert s in current && current[s] == blocks[s] ==> p in Block(current, s);
    }
  }

  lemma WritePageIntact(disk: map<Pgid, Content>, id: Pgid, c: Content, snap: Snapshot)
    requires Intact(disk, snap) && id !in snap.pages
    ensures Intact(disk[id := c], snap)
  {
  }

  lemma WritePageInv(s: State, id: Pgid, t: State)
    requires Inv(s) && Next(s, WritePage(id), t)
    ensures Inv(t)
  {
    hide Intact, Visible, CatalogOk, BlocksOk, BlocksNew, NewPages, Accounted, StoredOk;
    var m, w := s.Current(), s.writer.value;
    NewPagesApart(w.blocks, m.blocks, s.OpenPages());
    UnusedApart(s);
    forall r | r in t.Open() && r in t.snaps ensures Intact(t.disk, t.snaps[r]) {
      WritePageIntact(s.disk, id, w.dirty[id], s.snaps[r]);
    }
    assert t.OpenPages() == s.OpenPages();
  }

  // ---- Publishing the meta ----

  // The meta of an odd transaction goes to slot 1 and that of an even one to slot 0, which is
  // never the slot of the last commit, so the last commit stays readable until the new meta is.
  lemma MetaSlot(s: State, t: State)
    requires MetasOk(s) && Next(s, WriteMeta, t)
    ensures t.Current() == Meta(s.Current().txid + 1, s.writer.value.hwm, s.writer.value.blocks, s.writer.value.freelist)
    ensures s.Current() == t.meta0 || s.Current() == t.meta1
    ensures t.Open() == (set r | r in s.cat.readers) + {t.Current().txid}
  {
  }

  lemma CommitVisible(c: Catalog, current: Blocks, blocks: Blocks, openPages: set<Pgid>, r: Txid, pages: set<Pgid>)
    requires Visible(c.free, c.pending, c.allocs, current, r, pages)
    requires BlocksNew(blocks, current, openPages) && pages <= openPages
    ensures Visible(c.free, c.pending, c.allocs, blocks, r, pages)
  {
    hide Interval;
    forall p | p in blocks
      ensures p in pages && p in c.allocs ==> c.allocs[p] <= r
      ensures Block(blocks, p) <= pages || Block(blocks, p) !! pages
    {
      assert p in Block(blocks, p);
      assert p in current && current[p] == blocks[p] ==> Block(current, p) == Block(blocks, p);
    }
  }

  lemma CommittedVisible(c: Catalog, m: Meta, blocks: Blocks)
    requires CatalogOk(c.free, c.pending, c.allocs, m, true)
    requires Pages(blocks) !! c.free + PageIdsOf(c.pending) && m.txid + 1 < MAX_TXID
    ensures Visible(c.free, c.pending, c.allocs, blocks, m.txid + 1, Pages(blocks))
  {
    hide Interval;
    forall p | p in blocks ensures Block(blocks, p) <= Pages(blocks) {
      assert forall q :: q in Block(blocks, p) ==> q in Pages(blocks);
    }
  }

  lemma CommittedIntact(disk: map<Pgid, Content>, snap: Snapshot, current: Blocks, w: Writer, lost: set<Pgid>)
    requires Intact(disk, snap) && snap.pages == Pages(current)
    requires w.dirty.Keys == NewPages(w.blocks, current) && w.todo == {}
    requires forall p :: p in w.dirty && p !in w.todo ==> p in disk && disk[p] == w.dirty[p]
    ensures Intact(disk, Snapshot(Pages(w.blocks), snap.disk + w.dirty, lost))
  {
    hide Pages;
    forall p | p in Pages(w.blocks) ensures p in disk && p in snap.disk + w.dirty && disk[p] == (snap.disk + w.dirty)[p] {
      if p !in Pages(current) { assert p in w.dirty; } else { assert p !in w.dirty; }
    }
  }

  lemma CommitCatalog(c: Catalog, m: Meta, n: Meta)
    requires CatalogOk(c.free, c.pending, c.allocs, m, true) && n.txid == m.txid + 1 && m.hwm <= n.hwm
    ensures CatalogOk(c.free, c.pending, c.allocs, n, false)
  {
  }

  lemma CommitStored(n: Meta, snap: Snapshot, w: Writer, m: Meta, c: Catalog, disk: map<Pgid, Content>, lost: set<Pgid>, old_: map<Pgid, Content>)
    requires n.hwm == w.hwm >= m.hwm >= 2 && n.blocks == w.blocks && n.freelist == w.freelist
    requires BlocksOk(w.blocks, w.hwm) && Pages(w.blocks) !! c.free + PageIdsOf(c.pending)
    requires WritingOk(w, m, c.free, c.pending, disk) && w.writing
    requires Accounted(w.hwm, c.free, PageIdsOf(c.pending), Pages(w.blocks), lost)
    requires snap == Snapshot(Pages(w.blocks), old_ + w.dirty, lost)
    ensures StoredOk(n, snap)
  {
    hide Pages, BlocksOk, PageIdsOf;
    assert c.free + PageIdsOf(c.pending) == Usable(w.hwm) - Pages(w.blocks) - lost;
  }

  lemma WriteMetaInv(s: State, t: State)
    requires Inv(s) && Next(s, WriteMeta, t)
    ensures Inv(t)
  {
    hide Intact, Visible, CatalogOk, BlocksOk, BlocksNew, NewPages, Accounted, StoredOk, PageIdsOf, Pages, Usable;
    var m, w := s.Current(), s.writer.value;
    var n := t.Current();
    MetaSlot(s, t);
    UnusedApart(s);
    HighWaterGrows(m, w);
    CommittedVisible(s.cat, m, w.blocks);
    assert m.txid in s.Open();
    CommittedIntact(s.disk, s.snaps[m.txid], m.blocks, w, s.lost);
    CommitCatalog(s.cat, m, n);
    StoredHighWater(m, s.snaps[m.txid]);
    CommitStored(n, t.snaps[n.txid], w, m, s.cat, s.disk, s.lost, s.snaps[m.txid].disk);
    TreeBelow(s);
    forall r | r in t.Open() && r in t.snaps
      ensures Visible(t.cat.free, t.cat.pending, t.cat.allocs, n.blocks, r, t.snaps[r].pages)
      ensures Intact(t.disk, t.snaps[r]) && t.snaps[r].pages <= Usable(n.hwm)
    {
      if r != n.txid {
        assert r in s.Open() && t.snaps[r] == s.snaps[r];
        CommitVisible(s.cat, m.blocks, w.blocks, s.OpenPages(), r, s.snaps[r].pages);
      }
    }
  }

  lemma HighWaterGrows(m: Meta, w: Writer)
    requires m.hwm <= w.hwm
    ensures Usable(m.hwm) <= Usable(w.hwm)
  {
  }

  lemma StoredHighWater(m: Meta, snap: Snapshot)
    requires StoredOk(m, snap)
    ensures m.hwm >= 2
  {
  }

  lemma TreeBelow(s: State)
    requires Inv(s) && s.writer.Some?
    ensures Pages(s.writer.value.blocks) <= Usable(s.writer.value.hwm) && s.lost !! Pages(s.writer.value.blocks)
  {
    hide Intact, Visible, CatalogOk, BlocksOk, BlocksNew, NewPages, StoredOk, PageIdsOf, Pages, Usable;
  }

  // ---- Rolling back ----

  lemma RollbackVisible(c: Catalog, current: Blocks, txid: Txid, r: Txid, pages: set<Pgid>)
    requires Visible(c.free, c.pending, c.allocs, current, r, pages)
    ensures var d := RolledBack(c, txid); Visible(d.free, d.pending, d.allocs, current, r, pages)
  {
  }

  lemma RollbackCatalog(c: Catalog, m: Meta)
    requires CatalogOk(c.free, c.pending, c.allocs, m, true) && m.txid + 1 < MAX_TXID
    ensures var d := RolledBack(c, m.txid + 1); CatalogOk(d.free, d.pending, d.allocs, m, false)
  {
    var d := RolledBack(c, m.txid + 1);
    var mine := FreedBy(c.pending, m.txid + 1);
    forall e | e in d.pending ensures e in c.pending && e.freed != m.txid + 1 {
      assert e in mine <==> e in c.pending && e.freed == m.txid + 1;
    }
    forall p | p in d.allocs ensures d.allocs[p] <= m.txid + 1 {
      if p in BackInUse(mine) { assert EntryOf(mine, p) in c.pending; }
    }
  }

  lemma RollbackKeeps(c: Catalog, txid: Txid)
    requires PendingOnce(c.pending)
    ensures var d := RolledBack(c, txid);
      && d.free == c.free && d.readers == c.readers && d.pending == c.pending - FreedBy(c.pending, txid)
      && PageIdsOf(d.pending) == PageIdsOf(c.pending) - PageIdsOf(FreedBy(c.pending, txid))
  {
    var mine := FreedBy(c.pending, txid);
    forall p | p in PageIdsOf(c.pending) && p !in PageIdsOf(mine) ensures p in PageIdsOf(c.pending - mine) {
      var e :| e in c.pending && e.id == p;
      assert e !in mine;
    }
  }

  // The pages the writer had freed are back, those it had allocated are lost or beyond the mark.
  lemma RollbackAccounted(m: Meta, w: Writer, free: set<Pgid>, pending: set<PendingPage>, lost: set<Pgid>)
    requires m.hwm <= w.hwm && BlocksOk(m.blocks, m.hwm) && PendingOnce(pending)
    requires Accounted(w.hwm, free, PageIdsOf(pending), Pages(w.blocks), lost) && lost !! Pages(m.blocks)
    requires Pages(w.blocks) !! free + PageIdsOf(pending) && Pages(m.blocks) !! free
    requires free <= Usable(m.hwm) && PageIdsOf(pending) <= Usable(m.hwm)
    requires Pages(m.blocks) <= Usable(m.hwm) && lost <= Usable(m.hwm)
    requires forall e :: e in pending && e.id in Pages(m.blocks) ==> m.txid < e.freed
    requires forall e :: e in pending ==> e.freed <= m.txid + 1 && (e.freed == m.txid + 1 ==> e.id in Pages(m.blocks))
    requires m.txid + 1 < MAX_TXID
    ensures var left := PageIdsOf(pending) - PageIdsOf(FreedBy(pending, m.txid + 1));
      var more := lost + (NewPages(w.blocks, m.blocks) * Usable(m.hwm));
      Accounted(m.hwm, free, left, Pages(m.blocks), more) && more <= Usable(m.hwm) && more !! Pages(m.blocks)
  {
    hide Pages;
    var mine := PageIdsOf(FreedBy(pending, m.txid + 1));
    forall p | p in PageIdsOf(pending) ensures p in mine <==> p in Pages(m.blocks) {
      var e :| e in pending && e.id == p;
      assert e in FreedBy(pending, m.txid + 1) <==> e.freed == m.txid + 1;
    }
  }

  // What the invariant says of the last commit while a writer is at work.
  lemma LastCommit(s: State)
    requires Inv(s)
    ensures var m := s.Current();
      && Pages(m.blocks) !! s.cat.free && Pages(m.blocks) <= Usable(m.hwm)
      && (forall e :: e in s.cat.pending && e.id in Pages(m.blocks) ==> m.txid < e.freed)
      && BlocksOk(m.blocks, m.hwm) && PendingOnce(s.cat.pending)
      && s.cat.free <= Usable(m.hwm) && PageIdsOf(s.cat.pending) <= Usable(m.hwm)
      && (forall e :: e in s.cat.pending ==> e.freed <= m.txid + 1 && (e.freed == m.txid + 1 ==> e.id in Pages(m.blocks)))
  {
    hide Intact, BlocksOk, BlocksNew, NewPages, Accounted, WriterOk, WritingOk, PageIdsOf, Pages, Usable;
    assert s.Current().txid in s.Open();
  }

  // The writer has freed no page that it allocated itself.
  lemma NeverFreesOwn(s: State)
    requires Inv(s) && s.writer.Some?
    ensures forall e :: e in s.cat.pending && e.freed == s.WriterId() ==> e.alloc != s.WriterId()
  {
    hide Intact, WriterOk, WritingOk, Accounted, StoredOk, Pages, Usable;
    assert s.Current().txid in s.Open();
  }

  lemma RollbackInv(s: State, t: State)
    requires Inv(s) && Next(s, Rollback, t)
    ensures Inv(t)
  {
    hide Intact, Visible, CatalogOk, BlocksOk, BlocksNew, NewPages, Accounted, StoredOk, PageIdsOf, Pages, Usable, RolledBack, PendingOnce, FreedBy;
    var m, w := s.Current(), s.writer.value;
    LastCommit(s);
    RollbackKeeps(s.cat, m.txid + 1);
    RollbackCatalog(s.cat, m);
    RollbackAccounted(m, w, s.cat.free, s.cat.pending, s.lost);
    assert t.Open() == s.Open();
    forall r | r in t.Open() && r in t.snaps
      ensures Visible(t.cat.free, t.cat.pending, t.cat.allocs, m.blocks, r, t.snaps[r].pages)
    {
      RollbackVisible(s.cat, m.blocks, m.txid + 1, r, s.snaps[r].pages);
    }
  }

  // ---- Crash and recovery ----

  // The freelist that an opener finds is the complement of the tree and of the old losses.
  lemma StoredFreelist(s: State, t: State)
    requires Inv(s) && Next(s, Reopen, t)
    ensures t.cat.free == Usable(s.Current().hwm) - Pages(s.Current().blocks) - t.lost
    ensures t.lost <= Usable(s.Current().hwm) - Pages(s.Current().blocks)
  {
    hide Visible, CatalogOk, WriterOk, WritingOk, Accounted, Usable;
    var m := s.Current();
    assert m.txid in s.Open();
    if m.freelist.Some? {
      BlockWithin(m.blocks, m.freelist.value, m.hwm);
    }
  }

  lemma ReopenVisible(m: Meta, free: set<Pgid>, pages: set<Pgid>)
    requires pages == Pages(m.blocks) && pages !! free && BlocksOk(m.blocks, m.hwm)
    ensures Visible(free, {}, map[], m.blocks, m.txid, pages)
  {
    hide Pages;
    forall p | p in m.blocks ensures Block(m.blocks, p) <= pages {
      BlockWithin(m.blocks, p, m.hwm);
    }
  }

  lemma ReopenCatalog(s: State, t: State)
    requires Inv(s) && Next(s, Reopen, t)
    ensures CatalogOk(t.cat.free, t.cat.pending, t.cat.allocs, t.Current(), false)
    ensures Accounted(t.HighWater(), t.cat.free, PageIdsOf(t.cat.pending), Pages(t.TreeBlocks()), t.lost)
    ensures t.lost <= Usable(t.Current().hwm) && t.lost !! Pages(t.Current().blocks)
  {
    hide Intact, Visible, BlocksOk, WriterOk, WritingOk, OpenOk, Pages, Usable;
    StoredFreelist(s, t);
    TreeWithin(s);
  }

  lemma TreeWithin(s: State)
    requires Inv(s)
    ensures Pages(s.Current().blocks) <= Usable(s.Current().hwm)
  {
    hide Intact, Visible, BlocksOk, WriterOk, WritingOk, CatalogOk, Accounted, StoredOk;
    var m := s.Current();
    assert m.txid in s.Open();
  }

  lemma ReopenInv(s: State, t: State)
    requires Inv(s) && Next(s, Reopen, t)
    ensures Inv(t)
  {
    hide Intact, Visible, BlocksOk, WriterOk, WritingOk, Pages, Usable, CatalogOk, Accounted, StoredOk;
    var m := s.Current();
    LastCommit(s);
    StoredFreelist(s, t);
    ReopenCatalog(s, t);
    ReopenVisible(m, t.cat.free, s.snaps[m.txid].pages);
    assert t.Open() == {m.txid} && m.txid in s.Open();
  }

  // ---- Every step, every run ----

  lemma StepInv(s: State, e: Event, t: State)
    requires Inv(s) && Next(s, e, t)
    ensures Inv(t)
  {
    hide Inv;
    match e
    case BeginRead => ReaderInv(s, e, t);
    case EndRead(r) => ReaderInv(s, e, t);
    case BeginWrite => BeginWriteInv(s, t);
    case FreePage(id) => FreePageInv(s, id, t);
    case Allocate(n, found) =>
      if found != 0 { AllocateFreeInv(s, n, found, t); } else { AllocateGrowInv(s, n, t); }
    case StartWriting(dirty, freelist) => StartWritingInv(s, dirty, freelist, t);
    case WritePage(id) => WritePageInv(s, id, t);
    case WriteMeta => WriteMetaInv(s, t);
    case Rollback => RollbackInv(s, t);
    case Reopen => ReopenInv(s, t);
  }

  // A run from a freshly initialised database.
  ghost predicate Run(states: seq<State>, events: seq<Event>) {
    && |states| == |events| + 1
    && Initial(states[0])
    && forall i :: 0 <= i < |events| ==> Next(states[i], events[i], states[i + 1])
  }

  lemma {:induction false} RunInv(states: seq<State>, events: seq<Event>, i: nat)
    requires Run(states, events) && i < |states|
    ensures Inv(states[i])
  {
    hide Inv, Next, Initial;
    if i == 0 {
      InitialInv(states[0]);
    } else {
      RunInv(states, events, i - 1);
      StepInv(states[i - 1], events[i - 1], states[i]);
    }
  }

  lemma RunNext(states: seq<State>, events: seq<Event>, k: nat)
    requires Run(states, events) && k + 1 < |states|
    ensures k < |events| && Next(states[k], events[k], states[k + 1]) && Inv(states[k])
  {
    hide Next, Inv, Initial;
    RunInv(states, events, k);
  }
}
