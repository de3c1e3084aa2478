// Readers and the open writer by what has happened in a run (environment/bbolt/db.go, environment/bbolt/tx.go):
// which readers are open, what they keep, what the next writer gets back, and what a rollback undoes.
module Readers {
  import opened Isolation
  import opened PageIds
  import opened Protocol
  import opened Reclaim

  // The readers begun at transaction r and not ended, since the database was last opened.
  ghost function Begun(states: seq<State>, events: seq<Event>, i: nat, r: Txid): int
    requires i <= |events| < |states|
  {
    if i == 0 then 0 else
      var before := Begun(states, events, i - 1, r);
      match events[i - 1]
      case BeginRead => if states[i - 1].Current().txid == r then before + 1 else before
      case EndRead(q) => if q == r then before - 1 else before
      case Reopen => 0
      case _ => before
  }

  // How often a reader at r ends from event i up to event j.
  ghost function Ended(events: seq<Event>, i: nat, j: nat, r: Txid): nat
    requires i <= j <= |events|
  {
    if i == j then 0 else Ended(events, i, j - 1, r) + if events[j - 1] == EndRead(r) then 1 else 0
  }

  // The registered readers are the ones begun and not ended.
  lemma {:induction false} RegisteredAreBegun(states: seq<State>, events: seq<Event>, i: nat, r: Txid)
    requires Run(states, events) && i < |states|
    ensures states[i].cat.readers[r] == Begun(states, events, i, r)
  {
    hide Inv, Next;
    if i == 0 {
      NoReadersYet(states[0]);
    } else {
      RegisteredAreBegun(states, events, i - 1, r);
      RunNext(states, events, i - 1);
      RegisteredStep(states[i - 1], events[i - 1], states[i], r);
    }
  }

  lemma NoReadersYet(s: State)
    requires Initial(s)
    ensures s.cat.readers == multiset{}
  {
  }

  lemma RegisteredStep(s: State, e: Event, t: State, r: Txid)
    requires Next(s, e, t)
    ensures t.cat.readers[r] ==
      match e
      case BeginRead => if s.Current().txid == r then s.cat.readers[r] + 1 else s.cat.readers[r]
      case EndRead(q) => if q == r then s.cat.readers[r] - 1 else s.cat.readers[r]
      case Reopen => 0
      case _ => s.cat.readers[r]
  {
    hide Pages, NewPages, Usable, Allocated, Interval, PageIdsOf;
  }

  lemma RunLength(states: seq<State>, events: seq<Event>)
    requires Run(states, events)
    ensures |states| == |events| + 1
  {
  }

  // From event i on, fewer readers end at r than were open there with the one that event i begins.
  ghost predicate StaysOpen(states: seq<State>, events: seq<Event>, i: nat, j: nat, r: Txid)
    requires i < j <= |events| < |states|
  {
    && Ended(events, i + 1, j, r) <= Begun(states, events, i, r)
    && forall k :: i < k < j ==> events[k] != Reopen
  }

  lemma {:induction false} StillRegistered(states: seq<State>, events: seq<Event>, i: nat, j: nat, r: Txid)
    requires Run(states, events) && i < j < |states|
    requires events[i] == BeginRead && states[i].Current().txid == r && forall k :: i < k < j ==> events[k] != Reopen
    ensures Begun(states, events, j, r) >= Begun(states, events, i, r) + 1 - Ended(events, i + 1, j, r)
    decreases j - i
  {
    hide Run;
    RunLength(states, events);
    if i + 1 < j {
      StillRegistered(states, events, i, j - 1, r);
    } else {
      assert Ended(events, i + 1, j, r) == 0;
    }
  }

  lemma {:induction false} EndedGrows(events: seq<Event>, i: nat, j: nat, k: nat, r: Txid)
    requires i <= j <= k <= |events|
    ensures Ended(events, i, j, r) <= Ended(events, i, k, r)
  {
    if j < k { EndedGrows(events, i, j, k - 1, r); }
  }

  // A reader that begins at event i finds each page of the commit it began on as it was then, and not free,
  // until it ends or the database is opened again, whatever the writers do.
  lemma {:induction false} BegunReadersKeepTheirPages(states: seq<State>, events: seq<Event>, i: nat, j: nat, start: Pgid, p: Pgid)
    requires Run(states, events) && i < j < |states| && events[i] == BeginRead
    requires StaysOpen(states, events, i, j, states[i].Current().txid)
    requires var blocks := states[i].Current().blocks; start in blocks && start <= p <= start + blocks[start]
    ensures p in states[i].disk && p in states[j].disk && states[j].disk[p] == states[i].disk[p]
    ensures p !in states[j].cat.free
  {
    hide Inv, Next, Run;
    RunLength(states, events);
    var s, t, r := states[i], states[i + 1], states[i].Current().txid;
    RunNext(states, events, i);
    BeginsOnCommit(s, t);
    forall k | i + 1 <= k <= j ensures r in states[k].cat.readers {
      StillRegistered(states, events, i, k, r);
      EndedGrows(events, i + 1, k, j, r);
      RegisteredAreBegun(states, events, k, r);
    }
    ReadersAreIsolated(states, events, i + 1, j, r);
    SnapshotsSurvive(states, events, j, r);
    assert p in Block(s.Current().blocks, start) && p in Pages(s.Current().blocks);
  }

  lemma BeginsOnCommit(s: State, t: State)
    requires Inv(s) && Next(s, BeginRead, t)
    ensures t.disk == s.disk && t.snaps == s.snaps && s.Current().txid in s.snaps
    ensures s.snaps[s.Current().txid].pages == Pages(s.Current().blocks)
  {
    hide OpenOk, CatalogOk, WriterOk, WritingOk, Accounted, StoredOk;
  }

  // The next writer gets back exactly the pending pages between whose allocation and release no open reader
  // has begun.
  lemma {:induction false} UnreadPagesReturn(states: seq<State>, events: seq<Event>, i: nat, e: PendingPage)
    requires Run(states, events) && i < |events| && events[i] == BeginWrite && e in states[i].cat.pending
    ensures i + 1 < |states| && (e.id in states[i + 1].cat.free <==> e !in states[i + 1].cat.pending)
    ensures e.id in states[i + 1].cat.free <==> forall r: Txid :: e.alloc <= r <= e.freed ==> Begun(states, events, i, r) == 0
  {
    hide Inv, Next, Run;
    RunLength(states, events);
    RunNext(states, events, i);
    var s, t := states[i], states[i + 1];
    ReturnedIs(s, t, e);
    if r: Txid :| r in s.cat.readers && e.alloc <= r <= e.freed {
      RegisteredAreBegun(states, events, i, r);
      assert s.cat.readers[r] > 0 && Begun(states, events, i, r) != 0;
    } else {
      forall r: Txid | e.alloc <= r <= e.freed ensures Begun(states, events, i, r) == 0 {
        RegisteredAreBegun(states, events, i, r);
        assert s.cat.readers[r] == 0;
      }
    }
  }

  lemma ReturnedIs(s: State, t: State, e: PendingPage)
    requires Inv(s) && Next(s, BeginWrite, t) && e in s.cat.pending
    ensures e.id in t.cat.free <==> e !in t.cat.pending
    ensures e.id in t.cat.free <==> !exists r :: r in s.cat.readers && e.alloc <= r <= e.freed
  {
    hide OpenOk, WriterOk, WritingOk, Accounted, StoredOk, MetasOk;
    ReleasableMeaning(s.cat.readers, e);
    assert e.id in PageIdsOf(s.cat.pending);
    if Releasable(s.cat.readers, e) {
      var go := set e | e in s.cat.pending && Releasable(s.cat.readers, e);
      assert e in go && e.id in PageIdsOf(go);
    }
    assert forall f :: f in s.cat.pending && f.id == e.id ==> f == e;
  }

  // ---- What a writer is given, and what its rollback undoes ----

  // An allocation takes a block of free pages whenever there is one, and grows the file only when there is none.
  lemma {:induction false} AllocationPrefersFree(states: seq<State>, events: seq<Event>, i: nat, n: nat, found: Pgid)
    requires Run(states, events) && i < |events| && events[i] == Allocate(n, found)
    ensures i + 1 < |states| && (found == 0 <==> forall q: Pgid :: !RunAt(states[i].cat.free, q, n))
    ensures found != 0 ==> forall p :: p in states[i + 1].cat.free <==> p in states[i].cat.free && !(found <= p < found + n)
    ensures found != 0 ==> forall p :: found <= p < found + n ==> p in states[i].cat.free
    ensures found == 0 ==> states[i + 1].cat.free == states[i].cat.free && states[i + 1].HighWater() == states[i].HighWater() + n
  {
    hide Inv, Next, Run;
    RunLength(states, events);
    RunNext(states, events, i);
    GivenIs(states[i], n, found, states[i + 1]);
  }

  lemma GivenIs(s: State, n: nat, found: Pgid, t: State)
    requires Inv(s) && Next(s, Allocate(n, found), t)
    ensures found == 0 <==> forall q: Pgid :: !RunAt(s.cat.free, q, n)
    ensures found != 0 ==> forall p :: p in t.cat.free <==> p in s.cat.free && !(found <= p < found + n)
    ensures found != 0 ==> forall p :: found <= p < found + n ==> p in s.cat.free
    ensures found == 0 ==> t.cat.free == s.cat.free && t.HighWater() == s.HighWater() + n
  {
    hide Inv;
    if found != 0 { assert RunAt(s.cat.free, found, n); }
  }

  // From the beginning of a writer at event i up to state j, it is neither committed nor rolled back.
  ghost predicate OneWriter(states: seq<State>, events: seq<Event>, i: nat, j: nat) {
    && Run(states, events) && i < j < |states| && events[i] == BeginWrite
    && forall k :: i < k < j ==> !(events[k].BeginWrite? || events[k].WriteMeta? || events[k].Rollback? || events[k].Reopen?)
  }

  // What is left, while the writer is open, of what it found.
  ghost predicate Since(s: State, t: State) {
    && s.writer.Some? && t.writer.Some? && t.Current() == s.Current()
    && t.cat.free <= s.cat.free
    && (forall e :: e in t.cat.pending && e.freed != s.WriterId() <==> e in s.cat.pending)
    && (forall id :: id in s.Current().blocks && id in s.cat.allocs ==> Known(t, id, s.cat.allocs[id]))
  }

  // The transaction that allocated a block is known, or recorded with the block's release.
  ghost predicate Known(s: State, id: Pgid, alloc: Txid) {
    || (id in s.cat.allocs && s.cat.allocs[id] == alloc && NotFreed(s, id))
    || (s.WriterId() <= MAX_TXID && PendingPage(id, alloc, s.WriterId()) in s.cat.pending)
  }

  ghost predicate NotFreed(s: State, id: Pgid) {
    forall e :: e in s.cat.pending && e.id == id ==> e.freed != s.WriterId()
  }

  lemma SinceStep(s0: State, s: State, e: Event, t: State)
    requires Inv(s) && Next(s, e, t) && Since(s0, s)
    requires !(e.BeginWrite? || e.WriteMeta? || e.Rollback? || e.Reopen?)
    ensures Since(s0, t)
  {
    hide OpenOk, WritingOk, Accounted, StoredOk, Pages, Usable;
    match e
    case FreePage(id) => FreedSince(s0, s, id, t);
    case Allocate(n, found) => AllocatedSince(s0, s, n, found, t);
    case _ =>
  }

  lemma FreedSince(s0: State, s: State, id: Pgid, t: State)
    requires Inv(s) && Next(s, FreePage(id), t) && Since(s0, s)
    ensures Since(s0, t)
  {
    hide Inv;
    var m := s.Current();
    assert id in Interval(id, m.blocks[id] + 1);
    forall b | b in s0.Current().blocks && b in s0.cat.allocs ensures Known(t, b, s0.cat.allocs[b]) {
      assert Known(s, b, s0.cat.allocs[b]);
      if b != id { OtherBlock(s, id, b); }
    }
  }

  lemma OtherBlock(s: State, id: Pgid, b: Pgid)
    requires Inv(s) && id in s.Current().blocks && b in s.Current().blocks && b != id
    ensures b !in Interval(id, s.Current().blocks[id] + 1)
  {
    hide OpenOk, CatalogOk, WriterOk, WritingOk, Accounted, MetasOk;
  }

  lemma TreeNotFree(s: State, id: Pgid)
    requires Inv(s) && id in s.Current().blocks
    ensures id !in s.cat.free
    ensures id in s.cat.allocs ==> s.cat.allocs[id] <= s.Current().txid
  {
    hide CatalogOk, WriterOk, WritingOk, Accounted, StoredOk, Usable, Intact;
    var m := s.Current();
    assert m.txid in s.Open() && id in Block(m.blocks, id) && id in Pages(m.blocks);
  }

  lemma AllocatedSince(s0: State, s: State, n: nat, found: Pgid, t: State)
    requires Inv(s) && Next(s, Allocate(n, found), t) && Since(s0, s)
    ensures Since(s0, t)
  {
    hide Inv, Interval;
    var m := s.Current();
    if found != 0 {
      assert found in Interval(found, n) && RunAt(s.cat.free, found, n);
      forall b | b in m.blocks ensures b != found { TreeNotFree(s, b); }
    }
    forall b | b in s0.Current().blocks && b in s0.cat.allocs ensures Known(t, b, s0.cat.allocs[b]) {
      assert Known(s, b, s0.cat.allocs[b]);
    }
  }

  lemma FirstSince(s: State, t: State)
    requires Inv(s) && Next(s, BeginWrite, t)
    ensures Since(t, t)
  {
    hide OpenOk, WriterOk, WritingOk, Accounted, StoredOk;
  }

  lemma {:induction false} WriterSince(states: seq<State>, events: seq<Event>, i: nat, j: nat)
    requires OneWriter(states, events, i, j)
    ensures Since(states[i + 1], states[j])
    decreases j - i
  {
    hide Run, Inv, Next, Since;
    RunLength(states, events);
    RunNext(states, events, j - 1);
    if i + 1 < j {
      WriterSince(states, events, i, j - 1);
      SinceStep(states[i + 1], states[j - 1], events[j - 1], states[j]);
    } else {
      FirstSince(states[i], states[i + 1]);
    }
  }

  // A rollback gives back what its transaction released: the same pages are pending as when it began, on the
  // same accounts, and who allocated a block of the last commit is known as it was. What it had taken from
  // the free pages it does not give back, and it is forgotten as an allocator only if it has released something.
  lemma {:induction false} RollbackUndoes(states: seq<State>, events: seq<Event>, i: nat, j: nat)
    requires OneWriter(states, events, i, j) && j < |events| && events[j] == Rollback
    ensures j + 1 < |states| && states[j + 1].cat.pending == states[i + 1].cat.pending
    ensures states[j + 1].cat.free == states[j].cat.free <= states[i + 1].cat.free
    ensures var s, t := states[i + 1], states[j + 1]; forall id :: id in s.Current().blocks && id in s.cat.allocs && s.cat.allocs[id] != 0 ==>
      id in t.cat.allocs && t.cat.allocs[id] == s.cat.allocs[id]
    ensures states[j].cat.pending != states[i + 1].cat.pending ==>
      var t := states[j + 1]; forall p :: p in t.cat.allocs ==> t.cat.allocs[p] != states[j].WriterId()
  {
    hide Run, Inv, Next, Since;
    RunLength(states, events);
    WriterSince(states, events, i, j);
    RunNext(states, events, j);
    UndoneBy(states[i + 1], states[j], states[j + 1]);
  }

  lemma UndoneBy(s0: State, s: State, t: State)
    requires Inv(s) && Since(s0, s) && Next(s, Rollback, t)
    ensures t.cat.pending == s0.cat.pending && t.cat.free == s.cat.free <= s0.cat.free
    ensures forall id :: id in s0.Current().blocks && id in s0.cat.allocs && s0.cat.allocs[id] != 0 ==>
      id in t.cat.allocs && t.cat.allocs[id] == s0.cat.allocs[id]
    ensures s.cat.pending != s0.cat.pending ==> forall p :: p in t.cat.allocs ==> t.cat.allocs[p] != s.WriterId()
  {
    hide Inv;
    var mine := FreedBy(s.cat.pending, s.WriterId());
    assert s.cat.pending - mine == s0.cat.pending;
    assert s.cat.pending != s0.cat.pending ==> mine != {};
    forall id | id in s0.Current().blocks && id in s0.cat.allocs && s0.cat.allocs[id] != 0
      ensures id in t.cat.allocs && t.cat.allocs[id] == s0.cat.allocs[id]
    {
      RestoredAlloc(s, t, id, s0.cat.allocs[id]);
    }
  }

  lemma RestoredAlloc(s: State, t: State, id: Pgid, alloc: Txid)
    requires Inv(s) && Next(s, Rollback, t) && Known(s, id, alloc) && id in s.Current().blocks && alloc != 0
    ensures id in t.cat.allocs && t.cat.allocs[id] == alloc
  {
    hide Inv;
    var mine := FreedBy(s.cat.pending, s.WriterId());
    TreeNotFree(s, id);
    if PendingPage(id, alloc, s.WriterId()) in s.cat.pending {
      EntryIs(s, id, alloc);
    } else {
      assert id !in PageIdsOf(mine);
    }
  }

  lemma EntryIs(s: State, id: Pgid, alloc: Txid)
    requires Inv(s) && s.WriterId() <= MAX_TXID && PendingPage(id, alloc, s.WriterId()) in s.cat.pending && id in s.Current().blocks
    ensures var mine := FreedBy(s.cat.pending, s.WriterId()); id in PageIdsOf(mine) && EntryOf(mine, id).alloc == alloc
    ensures alloc <= s.Current().txid
  {
    hide WriterOk, WritingOk, Accounted, StoredOk, Usable, Intact, BlocksOk;
    var m, e := s.Current(), PendingPage(id, alloc, s.WriterId());
    assert m.txid in s.Open() && id in Block(m.blocks, id) && id in Pages(m.blocks);
    var mine := FreedBy(s.cat.pending, s.WriterId());
    assert e in mine && e.id in PageIdsOf(mine);
  }

  // A block that was taken from the free pages and committed is released on record of the transaction that
  // took it, however many transactions lie between, unless one of them was rolled back or the database opened
  // again.
  ghost predicate Undisturbed(events: seq<Event>, i: nat, j: nat, found: Pgid) {
    && i < j < |events|
    && forall k :: i < k < j ==>
      !(events[k].Rollback? || events[k].Reopen? || events[k] == FreePage(found) || (events[k].Allocate? && events[k].found == found))
  }

  lemma {:induction false} AllocatorKnown(states: seq<State>, events: seq<Event>, i: nat, n: nat, found: Pgid, j: nat)
    requires Run(states, events) && Undisturbed(events, i, j, found) && events[i] == Allocate(n, found) && found != 0
    ensures j < |states| && found in states[j].cat.allocs && states[j].cat.allocs[found] == states[i].WriterId()
    decreases j - i
  {
    hide Run, Inv, Next;
    RunLength(states, events);
    RunNext(states, events, j - 1);
    if i + 1 < j {
      AllocatorKnown(states, events, i, n, found, j - 1);
      AllocatorStays(states[j - 1], events[j - 1], states[j], found);
    } else {
      AllocatorNoted(states[i], n, found, states[j]);
    }
  }

  lemma AllocatorNoted(s: State, n: nat, found: Pgid, t: State)
    requires Next(s, Allocate(n, found), t) && found != 0
    ensures found in t.cat.allocs && t.cat.allocs[found] == s.WriterId()
  {
    hide Allocated, Pages, Usable;
  }

  lemma AllocatorStays(s: State, e: Event, t: State, found: Pgid)
    requires Next(s, e, t) && found in s.cat.allocs
    requires !(e.Rollback? || e.Reopen? || e == FreePage(found) || (e.Allocate? && e.found == found))
    ensures found in t.cat.allocs && t.cat.allocs[found] == s.cat.allocs[found]
  {
    hide Allocated, Pages, Usable, NewPages, PageIdsOf, Interval;
  }

  lemma {:induction false} ReleaseNamesAllocator(states: seq<State>, events: seq<Event>, i: nat, n: nat, found: Pgid, j: nat, p: Pgid)
    requires Run(states, events) && Undisturbed(events, i, j, found) && events[i] == Allocate(n, found) && found != 0
    requires events[j] == FreePage(found)
    ensures j + 1 < |states| && found in states[j].Current().blocks && states[i].WriterId() <= MAX_TXID && states[j].WriterId() <= MAX_TXID
    ensures found <= p <= found + states[j].Current().blocks[found] ==>
      PendingPage(p, states[i].WriterId(), states[j].WriterId()) in states[j + 1].cat.pending
  {
    hide Run, Inv, Next;
    RunLength(states, events);
    AllocatorKnown(states, events, i, n, found, j);
    RunNext(states, events, j);
    ReleasedOn(states[j], found, states[j + 1]);
  }

  lemma ReleasedOn(s: State, id: Pgid, t: State)
    requires Next(s, FreePage(id), t) && id in s.cat.allocs
    ensures id in s.Current().blocks && s.WriterId() <= MAX_TXID
    ensures forall p :: id <= p <= id + s.Current().blocks[id] ==> PendingPage(p, s.cat.allocs[id], s.WriterId()) in t.cat.pending
  {
  }
}
