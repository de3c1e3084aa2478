// What the transaction protocol guarantees over every run: isolation of readers, no reuse of
// pages in use, atomic commits, recovery after a crash at any point, and no loss but by rollback.
module Isolation {
  import opened Options
  import opened PageIds
  import opened Reclaim
  import opened Protocol

  // In every state of every run, no page of an open reader's snapshot or of the last commit is
  // free, and each still holds what it held when the snapshot was committed.
  lemma SnapshotsSurvive(states: seq<State>, events: seq<Event>, i: nat, r: Txid)
    requires Run(states, events) && i < |states|
    requires r in states[i].cat.readers || r == states[i].Current().txid
    ensures r in states[i].snaps
    ensures states[i].snaps[r].pages !! states[i].cat.free
    ensures Intact(states[i].disk, states[i].snaps[r])
  {
    RunInv(states, events, i);
    hide Run, Intact, CatalogOk, WriterOk, WritingOk, Accounted, StoredOk;
    assert r in states[i].Open();
  }

  // The block that an allocation hands out shares no page with any of them, whether it comes
  // from the freelist or from beyond the high water mark.
  lemma AllocationUnused(states: seq<State>, events: seq<Event>, i: nat, n: nat, found: Pgid, r: Txid)
    requires Run(states, events) && i < |events| && events[i] == Allocate(n, found)
    requires r in states[i].cat.readers || r == states[i].Current().txid
    ensures states[i].writer.Some? && r in states[i].snaps
    ensures Interval(if found != 0 then found else states[i].writer.value.hwm, n) !! states[i].snaps[r].pages
  {
    RunInv(states, events, i);
    var s := states[i];
    assert r in s.Open() && Next(s, events[i], states[i + 1]);
    UnusedApart(s);
    assert s.snaps[r].pages <= s.OpenPages();
    BlockWithinHighWater(s);
  }

  // Steps leave the record of an open snapshot alone.
  lemma SnapshotKept(s: State, e: Event, t: State, r: Txid)
    requires Inv(s) && Next(s, e, t) && r in s.cat.readers
    ensures r in s.snaps && r in t.snaps && t.snaps[r] == s.snaps[r]
  {
    hide OpenOk, CatalogOk, WriterOk, WritingOk, Accounted, StoredOk, Intact, Visible;
  }

  // A reader that stays open from i to j finds at j on every page of its snapshot what it
  // found there at i.
  lemma {:induction false} ReadersAreIsolated(states: seq<State>, events: seq<Event>, i: nat, j: nat, r: Txid)
    requires Run(states, events) && i <= j < |states|
    requires forall k :: i <= k <= j ==> r in states[k].cat.readers
    ensures r in states[i].snaps && r in states[j].snaps && states[j].snaps[r] == states[i].snaps[r]
    ensures forall p :: p in states[i].snaps[r].pages ==>
      p in states[i].disk && p in states[j].disk && states[j].disk[p] == states[i].disk[p]
    decreases j - i
  {
    hide Run, Next, Inv, Intact;
    SnapshotsSurvive(states, events, i, r);
    SnapshotsSurvive(states, events, j, r);
    IntactReads(states[i].disk, states[i].snaps[r]);
    IntactReads(states[j].disk, states[j].snaps[r]);
    if i < j {
      ReadersAreIsolated(states, events, i, j - 1, r);
      RunNext(states, events, j - 1);
      SnapshotKept(states[j - 1], events[j - 1], states[j], r);
    }
  }

  lemma IntactReads(disk: map<Pgid, Content>, snap: Snapshot)
    requires Intact(disk, snap)
    ensures forall p :: p in snap.pages ==> p in disk && p in snap.disk && disk[p] == snap.disk[p]
  {
  }

  // A commit is atomic: until the meta page is written an opener sees the old commit, and
  // from then on the new one; the meta page never overwrites the one it supersedes.
  lemma CommitIsAtomic(s: State, e: Event, t: State)
    requires Inv(s) && Next(s, e, t)
    ensures e != WriteMeta ==> t.Current() == s.Current() && t.meta0 == s.meta0 && t.meta1 == s.meta1
    ensures e == WriteMeta ==>
      && t.Current().txid == s.Current().txid + 1
      && t.Current().blocks == s.writer.value.blocks
      && (s.Current() == t.meta0 || s.Current() == t.meta1)
  {
    hide OpenOk, CatalogOk, WriterOk, WritingOk, Accounted, StoredOk;
    if e == WriteMeta { MetaSlot(s, t); }
  }

  // Stopping after any step, the database opens again: the snapshot of the meta it selects is
  // intact, and the freelist it loads shares no page with it.
  lemma CrashRecovers(states: seq<State>, events: seq<Event>, i: nat) returns (t: State)
    requires Run(states, events) && i < |states|
    ensures Next(states[i], Reopen, t) && t.Current() == states[i].Current()
    ensures Intact(t.disk, t.snaps[t.Current().txid])
    ensures t.snaps[t.Current().txid].pages == Pages(t.Current().blocks)
    ensures t.cat.free !! Pages(t.Current().blocks)
  {
    var s := states[i];
    RunInv(states, events, i);
    t := Recovered(s);
    StoredFreelist(s, t);
    SnapshotsSurvive(states, events, i, s.Current().txid);
  }

  lemma Recovered(s: State) returns (t: State)
    requires Inv(s)
    ensures Next(s, Reopen, t)
  {
    hide Visible, CatalogOk, WriterOk, WritingOk, Accounted, Usable;
    var m := s.Current();
    assert m.txid in s.Open();
    if m.freelist.Some? {
      BlockWithin(m.blocks, m.freelist.value, m.hwm);
    }
    var free := if m.freelist.Some? then s.disk[m.freelist.value].ids else Usable(m.hwm) - Pages(m.blocks);
    t := s.(cat := Catalog(free, {}, map[], multiset{}), writer := None,
            lost := if m.freelist.Some? then s.snaps[m.txid].lost else {});
  }

  // The panics of Free and Rollback never fire: in no state of any run is a page of the open writer's tree
  // that it may free already free or pending, or pending on its account a page that it allocated itself.
  lemma FreeingNeverPanics(states: seq<State>, events: seq<Event>, i: nat)
    requires Run(states, events) && i < |states| && states[i].writer.Some?
    ensures var s := states[i];
      && (forall e :: e in s.cat.pending && e.freed == s.WriterId() ==> e.alloc != s.WriterId())
      && (forall id :: id in s.writer.value.blocks && id in s.Current().blocks ==>
        id > 1 && Block(s.Current().blocks, id) !! s.cat.free + PageIdsOf(s.cat.pending))
  {
    hide Run, Next, Inv, Pages, Usable, PageIdsOf, Block;
    RunInv(states, events, i);
    var s := states[i];
    NeverFreesOwn(s);
    forall id | id in s.writer.value.blocks && id in s.Current().blocks
      ensures id > 1 && Block(s.Current().blocks, id) !! s.cat.free + PageIdsOf(s.cat.pending)
    {
      SameBlock(s, id);
      AboveMetas(s, id);
    }
  }

  lemma AboveMetas(s: State, id: Pgid)
    requires Inv(s) && id in s.Current().blocks
    ensures id > 1
  {
    hide OpenOk, CatalogOk, WriterOk, WritingOk, Accounted;
  }

  // ---- What rollback loses ----

  // The writer holds a page that lay below the last commit's high water mark and was not in its tree.
  ghost predicate Reuses(s: State) {
    s.writer.Some? && !(NewPages(s.writer.value.blocks, s.Current().blocks) !! Usable(s.Current().hwm))
  }

  // One rollback loses pages exactly when the writer had taken any from the freelist.
  lemma RollbackLoses(s: State, t: State)
    requires Inv(s) && Next(s, Rollback, t)
    ensures t.lost == s.lost <==> !Reuses(s)
  {
    hide OpenOk, CatalogOk, WriterOk, WritingOk, StoredOk;
    var w := s.writer.value;
    var taken := NewPages(w.blocks, s.Current().blocks) * Usable(s.Current().hwm);
    assert s.lost !! taken;
    if taken != {} {
      var p :| p in taken;
      assert p in t.lost && p !in s.lost;
    }
  }

  // Whether the open writer has been given a page from the freelist.
  ghost predicate TookAfter(e: Event, before: bool) {
    match e
    case Allocate(n, found) => found != 0 || before
    case BeginWrite => false
    case WriteMeta => false
    case Rollback => false
    case Reopen => false
    case _ => before
  }

  ghost predicate Took(events: seq<Event>, i: nat)
    requires i <= |events|
  {
    i > 0 && TookAfter(events[i - 1], Took(events, i - 1))
  }

  lemma ReusesStep(s: State, e: Event, t: State)
    requires Inv(s) && Next(s, e, t) && (s.writer.None? ==> !Reuses(s))
    ensures Reuses(t) <==> TookAfter(e, Reuses(s))
  {
    hide OpenOk, CatalogOk, WriterOk, WritingOk, StoredOk, Accounted, Pages, Allocated, Usable, Interval;
    match e
    case FreePage(id) => NewPagesKept(s, id);
    case Allocate(n, found) => AllocationReuses(s, n, found, t);
    case _ =>
  }

  lemma AllocationReuses(s: State, n: nat, found: Pgid, t: State)
    requires Inv(s) && Next(s, Allocate(n, found), t)
    ensures Reuses(t) <==> found != 0 || Reuses(s)
  {
    hide OpenOk, WritingOk, StoredOk, Accounted, Pages, NewPages;
    NewPagesAdded(s, n, found, t);
    assert s.Current() == t.Current();
    if found != 0 {
      assert found in Interval(found, n);
      AllocatedCatalog(s.cat, s.Current(), found, n, t.cat.free);
    }
  }

  lemma {:induction false} TookIsReuse(states: seq<State>, events: seq<Event>, i: nat)
    requires Run(states, events) && i < |states|
    ensures Reuses(states[i]) <==> Took(events, i)
  {
    hide Next, Inv, Reuses, TookAfter;
    if i == 0 {
      NoWriterReusesNothing(states[0]);
    } else {
      TookIsReuse(states, events, i - 1);
      RunNext(states, events, i - 1);
      NoWriterReusesNothing(states[i - 1]);
      ReusesStep(states[i - 1], events[i - 1], states[i]);
    }
  }

  lemma NoWriterReusesNothing(s: State)
    ensures s.writer.None? ==> !Reuses(s)
  {
  }

  // Whether a rollback has lost a page that no reopening has found again: without a stored freelist a
  // reopening finds all, and with one it finds what was lost since the commit that stored it.
  ghost predicate Lossy(states: seq<State>, events: seq<Event>, i: nat)
    requires i <= |events| < |states|
  {
    i > 0 &&
    match events[i - 1]
    case Rollback => Lossy(states, events, i - 1) || Took(events, i - 1)
    case Reopen => states[i - 1].Current().freelist.Some? && LossyAtCommit(states, events, i - 1)
    case _ => Lossy(states, events, i - 1)
  }

  ghost predicate LossyAtCommit(states: seq<State>, events: seq<Event>, i: nat)
    requires i <= |events| < |states|
  {
    i > 0 && if events[i - 1] == WriteMeta then Lossy(states, events, i - 1) else LossyAtCommit(states, events, i - 1)
  }

  // Over every run: every page below the high water mark is free, pending or in the tree exactly when no
  // rollback that counts had taken a page from the freelist.
  lemma {:induction false} LossIsReuse(states: seq<State>, events: seq<Event>, i: nat)
    requires Run(states, events) && i < |states|
    ensures var s := states[i];
      && (s.lost != {} <==> Lossy(states, events, i))
      && s.Current().txid in s.snaps && (s.snaps[s.Current().txid].lost != {} <==> LossyAtCommit(states, events, i))
      && (Usable(s.HighWater()) == s.cat.free + PageIdsOf(s.cat.pending) + Pages(s.TreeBlocks()) <==> !Lossy(states, events, i))
  {
    hide Next, Inv, Reuses, Usable, Pages, PageIdsOf;
    RunInv(states, events, i);
    LostAreMissing(states[i]);
    if i == 0 {
      NothingLostYet(states[0]);
    } else {
      LossIsReuse(states, events, i - 1);
      RunNext(states, events, i - 1);
      TookIsReuse(states, events, i - 1);
      LossStep(states[i - 1], events[i - 1], states[i]);
    }
  }

  lemma NothingLostYet(s: State)
    requires Initial(s)
    ensures s.lost == {} && s.Current().txid in s.snaps && s.snaps[s.Current().txid].lost == {}
  {
  }

  lemma LostAreMissing(s: State)
    requires Inv(s)
    ensures s.lost == {} <==> Usable(s.HighWater()) == s.cat.free + PageIdsOf(s.cat.pending) + Pages(s.TreeBlocks())
    ensures s.Current().txid in s.snaps
  {
    hide OpenOk, CatalogOk, WriterOk, WritingOk, StoredOk, Usable, Pages, PageIdsOf;
    var all := s.cat.free + PageIdsOf(s.cat.pending) + Pages(s.TreeBlocks());
    if s.lost != {} {
      var p :| p in s.lost;
      assert p in Usable(s.HighWater()) && p !in all;
    }
  }

  lemma LossStep(s: State, e: Event, t: State)
    requires Inv(s) && Next(s, e, t)
    ensures s.Current().txid in s.snaps && t.Current().txid in t.snaps
    ensures t.lost != {} <==>
      (match e
      case Rollback => s.lost != {} || Reuses(s)
      case Reopen => s.Current().freelist.Some? && s.snaps[s.Current().txid].lost != {}
      case _ => s.lost != {})
    ensures t.snaps[t.Current().txid].lost == if e == WriteMeta then s.lost else s.snaps[s.Current().txid].lost
  {
    hide OpenOk, CatalogOk, WriterOk, WritingOk, Accounted, StoredOk;
    CommitIsAtomic(s, e, t);
    if e == Rollback { RollbackKeepsLost(s, t); }
  }

  lemma RollbackKeepsLost(s: State, t: State)
    requires Inv(s) && Next(s, Rollback, t)
    ensures s.lost <= t.lost && (t.lost == s.lost <==> !Reuses(s))
  {
    RollbackLoses(s, t);
  }

  // In particular nothing is lost as long as no transaction is rolled back.
  lemma {:induction false} OnlyRollbackLoses(states: seq<State>, events: seq<Event>, i: nat)
    requires Run(states, events) && i < |states|
    requires forall k :: 0 <= k < i ==> events[k] != Rollback
    ensures var s := states[i];
      && s.Current().txid in s.snaps && s.lost == {} && s.snaps[s.Current().txid].lost == {}
      && Usable(s.HighWater()) == s.cat.free + PageIdsOf(s.cat.pending) + Pages(s.TreeBlocks())
  {
    hide Inv, Next, Usable, Pages, PageIdsOf;
    LossIsReuse(states, events, i);
    NoRollbackNoLoss(states, events, i);
  }

  lemma {:induction false} NoRollbackNoLoss(states: seq<State>, events: seq<Event>, i: nat)
    requires i <= |events| < |states| && forall k :: 0 <= k < i ==> events[k] != Rollback
    ensures !Lossy(states, events, i) && !LossyAtCommit(states, events, i)
  {
    if i > 0 { NoRollbackNoLoss(states, events, i - 1); }
  }

  // ---- A run that loses a page ----

  const FIRST_TREE: Blocks := map[2 := 0, 3 := 0]
  const NO_LEAF: Blocks := map[2 := 0]
  const BOTH_TREES: Blocks := map[2 := 0, 4 := 0]
  const SECOND_TREE: Blocks := map[4 := 0]
  const FIRST_DISK: map<Pgid, Content> := map[2 := FreelistPage({}), 3 := TreePage([])]
  const SECOND_DISK: map<Pgid, Content> := map[2 := FreelistPage({}), 3 := TreePage([]), 4 := TreePage([])]
  const NEW_LEAF: map<Pgid, Content> := map[4 := TreePage([])]

  const NOTHING_FREE := Catalog({}, {}, map[], multiset{})
  const LEAF_PENDING := Catalog({}, {PendingPage(3, 0, 2)}, map[], multiset{})
  const BOTH_PENDING := Catalog({}, {PendingPage(2, 0, 2), PendingPage(3, 0, 2)}, map[], multiset{})
  const BOTH_FREE := Catalog({2, 3}, {}, map[], multiset{})
  const TWO_TAKEN := Catalog({3}, {}, map[2 := 3], multiset{})

  // A new database and a writer on it.
  ghost function Fresh(cat: Catalog, writer: Option<Writer>): State {
    State(Meta(0, 4, FIRST_TREE, Some(2)), Meta(1, 4, FIRST_TREE, Some(2)), FIRST_DISK, cat, writer,
      map[1 := Snapshot({2, 3}, FIRST_DISK, {})], {})
  }

  // After the commit that moved the leaf from page 3 to page 4 and stored no freelist.
  ghost function Relocated(cat: Catalog, writer: Option<Writer>, lost: set<Pgid>): State {
    State(Meta(2, 5, SECOND_TREE, None), Meta(1, 4, FIRST_TREE, Some(2)), SECOND_DISK, cat, writer,
      map[1 := Snapshot({2, 3}, FIRST_DISK, {}), 2 := Snapshot({4}, SECOND_DISK, {})], lost)
  }

  function Idle(hwm: Pgid, blocks: Blocks): Option<Writer> {
    Some(Writer(hwm, blocks, false, None, map[], {}))
  }

  function Writing(todo: set<Pgid>): Option<Writer> {
    Some(Writer(5, SECOND_TREE, true, None, NEW_LEAF, todo))
  }

  lemma TwoTrees()
    ensures Pages(FIRST_TREE) == {2, 3} && Pages(SECOND_TREE) == {4} && NewPages(SECOND_TREE, FIRST_TREE) == {4}
    ensures Pages(SECOND_TREE[2 := 0]) == {2, 4} && NewPages(SECOND_TREE[2 := 0], SECOND_TREE) == {2}
    ensures Usable(4) == {2, 3} && Usable(5) == {2, 3, 4}
  {
    hide Pages, Interval, Usable;
    NoPages();
    OneBlock(map[], 2);
    var none: Blocks := map[];
    assert none[2 := 0][3 := 0] == FIRST_TREE && none[4 := 0] == SECOND_TREE;
    OneBlock(none[2 := 0], 3);
    OneBlock(none, 4);
    OneBlock(SECOND_TREE, 2);
    SmallFiles();
  }

  lemma NoPages()
    ensures Pages(map[]) == {}
  {
  }

  lemma OneBlock(b: Blocks, s: Pgid)
    requires s !in b
    ensures Pages(b[s := 0]) == Pages(b) + {s}
  {
    hide Pages;
    PagesAdd(b, s, 0);
    assert Interval(s, 1) == {s};
  }

  lemma SmallFiles()
    ensures Usable(4) == {2, 3} && Usable(5) == {2, 3, 4}
  {
  }

  // The first transaction gives up the leaf, gets a new page for it, and on commit gives up the freelist's page.
  lemma MovingSteps()
    ensures Initial(Fresh(NOTHING_FREE, None))
    ensures Next(Fresh(NOTHING_FREE, None), BeginWrite, Fresh(NOTHING_FREE, Idle(4, FIRST_TREE)))
    ensures Next(Fresh(NOTHING_FREE, Idle(4, FIRST_TREE)), FreePage(3), Fresh(LEAF_PENDING, Idle(4, NO_LEAF)))
  {
    hide Pages;
    assert FIRST_TREE - {3} == NO_LEAF && Interval(3, 1) == {3};
  }

  lemma GrowingSteps()
    ensures Next(Fresh(LEAF_PENDING, Idle(4, NO_LEAF)), Allocate(1, 0), Fresh(LEAF_PENDING, Idle(5, BOTH_TREES)))
    ensures Next(Fresh(LEAF_PENDING, Idle(5, BOTH_TREES)), FreePage(2), Fresh(BOTH_PENDING, Idle(5, SECOND_TREE)))
  {
    hide Pages;
    assert NO_LEAF[4 := 0] == BOTH_TREES && BOTH_TREES - {2} == SECOND_TREE && Interval(2, 1) == {2};
    forall p ensures !RunAt({}, p, 1) { assert p in Interval(p, 1); }
  }

  lemma CommitSteps()
    ensures Next(Fresh(BOTH_PENDING, Idle(5, SECOND_TREE)), StartWriting(NEW_LEAF, None), Fresh(BOTH_PENDING, Writing({4})))
    ensures Next(Fresh(BOTH_PENDING, Writing({4})), WritePage(4), Fresh(BOTH_PENDING, Writing({})).(disk := SECOND_DISK))
    ensures Next(Fresh(BOTH_PENDING, Writing({})).(disk := SECOND_DISK), WriteMeta, Relocated(BOTH_PENDING, None, {}))
  {
    hide Pages, NewPages;
    TwoTrees();
    var none: set<Pgid> := {};
    assert NEW_LEAF.Keys == {4} && {4} - {4} == none;
    assert FIRST_DISK[4 := TreePage([])] == SECOND_DISK && FIRST_DISK + NEW_LEAF == SECOND_DISK;
  }

  // The second one takes page 2 from the freelist and is rolled back.
  lemma TakingSteps()
    ensures Next(Relocated(BOTH_PENDING, None, {}), BeginWrite, Relocated(BOTH_FREE, Idle(5, SECOND_TREE), {}))
    ensures Next(Relocated(BOTH_FREE, Idle(5, SECOND_TREE), {}), Allocate(1, 2), Relocated(TWO_TAKEN, Idle(5, SECOND_TREE[2 := 0]), {}))
  {
    hide Pages, NewPages;
    assert Interval(2, 1) == {2} && RunAt({2, 3}, 2, 1);
    assert (set e | e in BOTH_PENDING.pending && Releasable(BOTH_PENDING.readers, e)) == BOTH_PENDING.pending;
    assert PageIdsOf(BOTH_PENDING.pending) == {2, 3};
  }

  lemma LosingSteps()
    ensures Next(Relocated(TWO_TAKEN, Idle(5, SECOND_TREE[2 := 0]), {}), Rollback, Relocated(TWO_TAKEN, None, {2}))
  {
    hide Pages, NewPages;
    TwoTrees();
  }

  // So page 2 is neither free nor pending nor in the tree, and stays so until the database is opened again.
  lemma {:induction false} LosingRun() returns (states: seq<State>, events: seq<Event>)
    ensures Run(states, events) && |states| == 11 && Lossy(states, events, 10)
    ensures states[10].lost == {2} && states[10].writer.None?
    ensures 2 !in states[10].cat.free + PageIdsOf(states[10].cat.pending) + Pages(states[10].Current().blocks)
  {
    hide Next, Initial, Pages;
    states := [Fresh(NOTHING_FREE, None), Fresh(NOTHING_FREE, Idle(4, FIRST_TREE)), Fresh(LEAF_PENDING, Idle(4, NO_LEAF)),
      Fresh(LEAF_PENDING, Idle(5, BOTH_TREES)), Fresh(BOTH_PENDING, Idle(5, SECOND_TREE)), Fresh(BOTH_PENDING, Writing({4})),
      Fresh(BOTH_PENDING, Writing({})).(disk := SECOND_DISK), Relocated(BOTH_PENDING, None, {}),
      Relocated(BOTH_FREE, Idle(5, SECOND_TREE), {}), Relocated(TWO_TAKEN, Idle(5, SECOND_TREE[2 := 0]), {}),
      Relocated(TWO_TAKEN, None, {2})];
    events := [BeginWrite, FreePage(3), Allocate(1, 0), FreePage(2), StartWriting(NEW_LEAF, None), WritePage(4), WriteMeta,
      BeginWrite, Allocate(1, 2), Rollback];
    MovingSteps();
    GrowingSteps();
    CommitSteps();
    TakingSteps();
    LosingSteps();
    TwoTrees();
    assert states[10] == Relocated(TWO_TAKEN, None, {2});
    LossIsReuse(states, events, 10);
  }
}
