// The page accounting of environment/bbolt/tx_check.go: every page below the high water mark is reached
// once or free. The channel of errors is the list of diagnostics.
module PageChecks {
  import opened Inodes
  import opened Keys
  import opened Options
  import opened PageIds
  import opened PageTrees
  import KeyOrder
  import Protocol
  import Reclaim
  import Trees

  datatype Diagnostic =
    | AlreadyFreed(id: Pgid)
    | OutOfBounds(id: Pgid)
    | MultipleReferences(id: Pgid)
    | ReachableFreed(id: Pgid)
    | InvalidType(id: Pgid)
    | Disordered(id: Pgid)
    | Unreachable(id: Pgid)

  // ---- The keys of a bucket ----

  ghost predicate KeysFine(t: PageTree) {
    !HasOther(t) && KeyOrder.Passes(TreeOf(t), None, None)
  }

  // ---- What there is to complain about ----

  ghost predicate Covers(seen: seq<PageRef>, id: Pgid) {
    exists k :: 0 <= k < |seen| && id in BlockOf(seen[k])
  }

  // The id lies in a block that comes after another with it, or among those that are taken from the start.
  ghost predicate Doubled(start: set<Pgid>, seen: seq<PageRef>, id: Pgid) {
    exists k :: 0 <= k < |seen| && id in BlockOf(seen[k]) && (id in start || Covers(seen[..k], id))
  }

  ghost predicate Twice(all: seq<Pgid>, id: Pgid) {
    exists i, j :: 0 <= i < j < |all| && all[i] == all[j] == id
  }

  // The high water mark, the listed free pages, and the pages of the metas and the freelist.
  datatype Scope = Scope(hwm: Pgid, all: seq<Pgid>, start: set<Pgid>)

  ghost predicate BadPage(scope: Scope, p: PageRef, d: Diagnostic) {
    match d
    case OutOfBounds(id) => id == p.id > scope.hwm
    case ReachableFreed(id) => id == p.id && p.id in Ids(scope.all)
    case InvalidType(id) => id == p.id && p.id !in Ids(scope.all) && p.kind == Other
    case _ => false
  }

  // What is due for the pages and the buckets seen so far, with the last scan up to a page.
  ghost predicate Due(scope: Scope, seen: seq<PageRef>, trees: seq<PageTree>, scanned: Pgid, d: Diagnostic) {
    match d
    case AlreadyFreed(id) => Twice(scope.all, id)
    case MultipleReferences(id) => Doubled(scope.start, seen, id)
    case Unreachable(id) => id < scanned && id !in scope.start && !Covers(seen, id) && id !in Ids(scope.all)
    case Disordered(id) => exists k :: 0 <= k < |trees| && trees[k].id == id && !KeysFine(trees[k])
    case _ => exists k :: 0 <= k < |seen| && BadPage(scope, seen[k], d)
  }

  ghost predicate DueAt(scope: Scope, reachable: set<Pgid>, p: PageRef, d: Diagnostic) {
    BadPage(scope, p, d) || (d.MultipleReferences? && d.id in BlockOf(p) && d.id in reachable)
  }

  lemma CoversMore(seen: seq<PageRef>, p: PageRef, id: Pgid)
    ensures Covers(seen + [p], id) <==> Covers(seen, id) || id in BlockOf(p)
  {
    var more := seen + [p];
    if Covers(seen, id) {
      var k :| 0 <= k < |seen| && id in BlockOf(seen[k]);
      assert id in BlockOf(more[k]);
    }
    if id in BlockOf(p) { assert id in BlockOf(more[|seen|]); }
  }

  lemma DueMore(scope: Scope, seen: seq<PageRef>, trees: seq<PageTree>, reachable: set<Pgid>, p: PageRef, d: Diagnostic)
    requires d.MultipleReferences? ==> (d.id in reachable <==> d.id in scope.start || Covers(seen, d.id))
    ensures Due(scope, seen + [p], trees, 0, d) <==> Due(scope, seen, trees, 0, d) || DueAt(scope, reachable, p, d)
  {
    var more := seen + [p];
    assert more[|seen|] == p && more[..|seen|] == seen;
    assert forall k :: 0 <= k < |seen| ==> more[k] == seen[k] && more[..k] == seen[..k];
  }

  lemma DueOfTree(scope: Scope, seen: seq<PageRef>, trees: seq<PageTree>, t: PageTree, d: Diagnostic)
    ensures Due(scope, seen, trees + [t], 0, d) <==> Due(scope, seen, trees, 0, d) || (d == Disordered(t.id) && !KeysFine(t))
  {
    hide KeysFine, BadPage, Doubled, Covers, Twice;
    var more := trees + [t];
    assert more[|trees|] == t;
    assert forall k :: 0 <= k < |trees| ==> more[k] == trees[k];
  }

  class PageCheck {
    const hwm: Pgid
    var reachable: set<Pgid>
    var freed: set<Pgid>
    var ch: seq<Diagnostic>
    ghost var scope: Scope
    ghost var seen: seq<PageRef>
    ghost var trees: seq<PageTree>

    ghost predicate Valid()
      reads this
    {
      && hwm == scope.hwm && freed == Ids(scope.all)
      && (forall id :: id in reachable <==> id in scope.start || Covers(seen, id))
      && (forall d :: d in ch <==> Due(scope, seen, trees, 0, d))
    }

    // The free pages, double frees reported; and the pages that are no bucket's.
    constructor (hwm: Pgid, all: seq<Pgid>, start: set<Pgid>)
      ensures Valid() && seen == [] && trees == [] && scope == Scope(hwm, all, start)
    {
      this.hwm := hwm;
      this.scope, this.seen, this.trees := Scope(hwm, all, start), [], [];
      reachable, freed, ch := start, {}, [];
      new;
      for i := 0 to |all|
        invariant hwm == this.hwm && scope == Scope(hwm, all, start) && seen == [] && trees == [] && reachable == start
        invariant freed == Ids(all[..i])
        invariant forall d :: d in ch <==> d.AlreadyFreed? && Twice(all[..i], d.id)
      {
        TwiceMore(all, i);
        if all[i] in freed { ch := ch + [AlreadyFreed(all[i])]; }
        freed := freed + {all[i]};
      }
      assert all[..|all|] == all;
    }

    method VerifyPageReachable(p: PageRef)
      requires Valid()
      modifies this`reachable, this`ch, this`seen
      ensures Valid() && seen == old(seen) + [p]
    {
      hide Covers, Due, Ids, DueAt, BadPage, Again;
      Reference(p);
      CheckType(p);
      seen := seen + [p];
      forall id ensures Covers(seen, id) <==> Covers(old(seen), id) || id in BlockOf(p) { CoversMore(old(seen), p, id); }
      forall d ensures Due(scope, seen, trees, 0, d) <==>
        (Due(scope, old(seen), trees, 0, d) || (d == OutOfBounds(p.id) && p.id > hwm) || Again(old(reachable), p, d)
        || (d == ReachableFreed(p.id) && p.id in freed) || (d == InvalidType(p.id) && p.id !in freed && p.kind == Other))
      {
        DueMore(scope, old(seen), trees, old(reachable), p, d);
        DueAtIs(scope, old(reachable), p, d);
      }
    }

    // Each page of the block is referenced once.
    method Reference(p: PageRef)
      modifies this`reachable, this`ch
      ensures reachable == old(reachable) + BlockOf(p)
      ensures forall d :: d in ch <==> d in old(ch) || (d == OutOfBounds(p.id) && p.id > hwm) || Again(old(reachable), p, d)
    {
      if p.id > hwm { ch := ch + [OutOfBounds(p.id)]; }
      for i := 0 to p.overflow + 1
        invariant reachable == old(reachable) + Interval(p.id, i)
        invariant forall d :: d in ch <==> (d in old(ch) || (d == OutOfBounds(p.id) && p.id > hwm) ||
          (d.MultipleReferences? && d.id in Interval(p.id, i) && d.id in old(reachable)))
      {
        var id := p.id + i;
        if id in reachable { ch := ch + [MultipleReferences(id)]; }
        reachable := reachable + {id};
      }
    }

    // Only branches and leaves that are not free are referenced.
    method CheckType(p: PageRef)
      modifies this`ch
      ensures forall d :: d in ch <==> (d in old(ch) || (d == ReachableFreed(p.id) && p.id in freed) ||
        (d == InvalidType(p.id) && p.id !in freed && p.kind == Other))
    {
      if p.id in freed {
        ch := ch + [ReachableFreed(p.id)];
      } else if p.kind == Other {
        ch := ch + [InvalidType(p.id)];
      }
    }

    // forEachPage: a page before its children.
    method ForEachPage(t: PageTree)
      requires Valid()
      modifies this`reachable, this`ch, this`seen
      ensures Valid() && seen == old(seen) + PagesIn(t)
      decreases t
    {
      VerifyPageReachable(Top(t));
      if t.BranchPage? {
        for i := 0 to |t.twigs|
          invariant Valid() && seen == old(seen) + [Top(t)] + PagesInAll(t.twigs[..i])
        {
          assert t.twigs[..i + 1][..i] == t.twigs[..i];
          ForEachPage(t.twigs[i].child);
        }
        assert t.twigs[..|t.twigs|] == t.twigs;
      }
    }

    // recursivelyCheckPageKeyOrder: complaints about keys out of order and pages of other types, as one.
    method CheckPageKeyOrder(t: PageTree)
      requires Valid()
      modifies this`ch, this`trees
      ensures Valid() && trees == old(trees) + [t]
    {
      hide Covers, Due, Ids, KeyOrder.Passes;
      var last, found := KeyOrder.CheckKeyOrder(TreeOf(t), None, None);
      if found != [] || HasOther(t) { ch := ch + [Disordered(t.id)]; }
      trees := trees + [t];
      forall d ensures Due(scope, seen, trees, 0, d) <==> Due(scope, seen, old(trees), 0, d) || (d == Disordered(t.id) && !KeysFine(t)) {
        DueOfTree(scope, seen, old(trees), t, d);
      }
    }

    // recursivelyCheckBucket: the pages of the bucket, its keys, then the buckets in it.
    method CheckBucket(b: BucketTree)
      requires Valid()
      modifies this`reachable, this`ch, this`seen, this`trees
      ensures Valid() && seen == old(seen) + PagesOf(b) && trees == old(trees) + TreesOf(b)
      decreases b
    {
      hide Due, Covers, PagesIn, KeysFine;
      if b.Inline? { return; }
      ForEachPage(b.pages);
      CheckPageKeyOrder(b.pages);
      for i := 0 to |b.buckets|
        invariant Valid() && seen == old(seen) + PagesIn(b.pages) + PagesOfAll(b.buckets[..i])
        invariant trees == old(trees) + [b.pages] + TreesOfAll(b.buckets[..i])
      {
        assert b.buckets[..i + 1][..i] == b.buckets[..i];
        CheckBucket(b.buckets[i]);
      }
      assert b.buckets[..|b.buckets|] == b.buckets;
    }
  }

  ghost predicate Again(reachable: set<Pgid>, p: PageRef, d: Diagnostic) {
    d.MultipleReferences? && d.id in BlockOf(p) && d.id in reachable
  }

  lemma DueAtIs(scope: Scope, reachable: set<Pgid>, p: PageRef, d: Diagnostic)
    ensures DueAt(scope, reachable, p, d) <==>
      ((d == OutOfBounds(p.id) && p.id > scope.hwm) || Again(reachable, p, d)
      || (d == ReachableFreed(p.id) && p.id in Ids(scope.all))
      || (d == InvalidType(p.id) && p.id !in Ids(scope.all) && p.kind == Other))
  {
  }

  // The pages that the check takes as reached from the start.
  function Taken(freelist: Option<PageRef>): set<Pgid> {
    {0, 1} + if freelist.Some? then BlockOf(freelist.value) else {}
  }

  lemma TakenAt(freelist: Option<PageRef>, id: Pgid)
    ensures id in Taken(freelist) <==> id < 2 || (freelist.Some? && freelist.value.id <= id <= freelist.value.id + freelist.value.overflow)
  {
    if freelist.Some? { assert id in BlockOf(freelist.value) <==> freelist.value.id <= id <= freelist.value.id + freelist.value.overflow; }
  }

  lemma TwiceMore(all: seq<Pgid>, i: nat)
    requires i < |all|
    ensures Ids(all[..i + 1]) == Ids(all[..i]) + {all[i]}
    ensures forall id :: Twice(all[..i + 1], id) <==> Twice(all[..i], id) || (id == all[i] && id in Ids(all[..i]))
  {
    var was, now := all[..i], all[..i + 1];
    assert now == was + [all[i]];
    forall id ensures Twice(now, id) <==> Twice(was, id) || (id == all[i] && id in Ids(was)) {
      if Twice(was, id) {
        var j, k :| 0 <= j < k < |was| && was[j] == was[k] == id;
        assert now[j] == now[k] == id;
      }
      if id == all[i] && id in was {
        var j :| 0 <= j < |was| && was[j] == id;
        assert now[j] == now[i] == id;
      }
    }
  }

  // ---- The complaints by path ----

  ghost predicate HoldsPage(root: BucketTree, path: Path, id: Pgid) {
    Reached(root, path).Some? && var t := Reached(root, path).value; t.id <= id <= t.id + t.overflow
  }

  // What there is to complain about, in terms of the paths to the buckets and the pages of the database.
  ghost predicate Complaint(root: BucketTree, hwm: Pgid, all: seq<Pgid>, start: set<Pgid>, scanned: Pgid, d: Diagnostic) {
    match d
    case AlreadyFreed(id) => exists i, j :: 0 <= i < j < |all| && all[i] == all[j] == id
    case OutOfBounds(id) => exists path :: Reached(root, path).Some? && Reached(root, path).value.id == id > hwm
    case MultipleReferences(id) =>
      || (id in start && exists path :: HoldsPage(root, path, id))
      || (exists p, q :: p != q && HoldsPage(root, p, id) && HoldsPage(root, q, id))
    case ReachableFreed(id) => id in all && exists path :: Reached(root, path).Some? && Reached(root, path).value.id == id
    case InvalidType(id) =>
      id !in all && exists path :: Reached(root, path).Some? && Reached(root, path).value.id == id && Reached(root, path).value.OtherPage?
    case Disordered(id) => exists at :: RootAt(root, at).Some? && RootAt(root, at).value.id == id && !KeysFine(RootAt(root, at).value)
    case Unreachable(id) => id < scanned && id !in start && id !in all && forall path :: !HoldsPage(root, path, id)
  }

  lemma {:induction false} CoveredByPath(root: BucketTree, id: Pgid)
    ensures Covers(PagesOf(root), id) <==> exists path :: HoldsPage(root, path, id)
  {
    hide PagesOf, Reached;
    var paths := PagesByPath(root);
    var seen := PagesOf(root);
    if k :| 0 <= k < |seen| && id in BlockOf(seen[k]) { assert HoldsPage(root, paths[k], id); }
    if path :| HoldsPage(root, path, id) {
      var k :| 0 <= k < |paths| && paths[k] == path;
      assert id in BlockOf(seen[k]);
    }
  }

  lemma {:induction false} DoubledByPath(root: BucketTree, start: set<Pgid>, id: Pgid)
    ensures Doubled(start, PagesOf(root), id) <==>
      || (id in start && exists path :: HoldsPage(root, path, id))
      || (exists p, q :: p != q && HoldsPage(root, p, id) && HoldsPage(root, q, id))
  {
    hide PagesOf, HoldsPage;
    CoveredByPath(root, id);
    if Doubled(start, PagesOf(root), id) {
      if id !in start { TwoPathsTo(root, id); } else { CoveredIfDoubled(start, PagesOf(root), id); }
    }
    if p, q :| p != q && HoldsPage(root, p, id) && HoldsPage(root, q, id) {
      TwoPathsCover(root, p, q, id);
    } else if id in start && Covers(PagesOf(root), id) {
      assert Doubled(start, PagesOf(root), id);
    }
  }

  lemma CoveredIfDoubled(start: set<Pgid>, seen: seq<PageRef>, id: Pgid)
    requires Doubled(start, seen, id)
    ensures Covers(seen, id)
  {
  }

  lemma {:induction false} TwoPathsTo(root: BucketTree, id: Pgid)
    requires exists k :: 0 <= k < |PagesOf(root)| && id in BlockOf(PagesOf(root)[k]) && Covers(PagesOf(root)[..k], id)
    ensures exists p, q :: p != q && HoldsPage(root, p, id) && HoldsPage(root, q, id)
  {
    hide PagesOf, Reached;
    var paths := PagesByPath(root);
    var seen := PagesOf(root);
    var k :| 0 <= k < |seen| && id in BlockOf(seen[k]) && Covers(seen[..k], id);
    var j :| 0 <= j < k && id in BlockOf(seen[..k][j]);
    assert paths[j] != paths[k] && HoldsPage(root, paths[j], id) && HoldsPage(root, paths[k], id);
  }

  lemma {:induction false} TwoPathsCover(root: BucketTree, p: Path, q: Path, id: Pgid)
    requires p != q && HoldsPage(root, p, id) && HoldsPage(root, q, id)
    ensures forall start :: Doubled(start, PagesOf(root), id)
  {
    hide PagesOf, Reached, Doubled;
    var paths := PagesByPath(root);
    var j: nat, k: nat :| j < |paths| && k < |paths| && paths[j] == p && paths[k] == q;
    TwoCover(PagesOf(root), j, k, id);
  }

  lemma TwoCover(seen: seq<PageRef>, j: nat, k: nat, id: Pgid)
    requires j < |seen| && k < |seen| && j != k && id in BlockOf(seen[j]) && id in BlockOf(seen[k])
    ensures forall start :: Doubled(start, seen, id)
  {
    var a, b := if j < k then j else k, if j < k then k else j;
    assert seen[..b][a] == seen[a] && Covers(seen[..b], id);
  }

  lemma {:induction false} DueIsByPath(scope: Scope, root: BucketTree, scanned: Pgid, d: Diagnostic)
    ensures Due(scope, PagesOf(root), TreesOf(root), scanned, d) <==> Complaint(root, scope.hwm, scope.all, scope.start, scanned, d)
  {
    hide PagesOf, TreesOf, Reached, RootAt, KeysFine, Covers, Doubled, HoldsPage;
    match d
    case MultipleReferences(id) => DoubledByPath(root, scope.start, id);
    case Unreachable(id) => CoveredByPath(root, id);
    case Disordered(id) =>
      var ats := BucketsByPath(root);
      if at :| RootAt(root, at).Some? && RootAt(root, at).value.id == id && !KeysFine(RootAt(root, at).value) {
        var k :| 0 <= k < |ats| && ats[k] == at;
      }
    case AlreadyFreed(_) =>
    case _ => BadByPath(scope, root, d);
  }

  lemma {:induction false} BadByPath(scope: Scope, root: BucketTree, d: Diagnostic)
    requires d.OutOfBounds? || d.ReachableFreed? || d.InvalidType?
    ensures (exists k :: 0 <= k < |PagesOf(root)| && BadPage(scope, PagesOf(root)[k], d)) <==>
      Complaint(root, scope.hwm, scope.all, scope.start, 0, d)
  {
    hide PagesOf, Reached;
    var paths := PagesByPath(root);
    var seen := PagesOf(root);
    if k :| 0 <= k < |seen| && BadPage(scope, seen[k], d) {
      assert Reached(root, paths[k]).Some? && seen[k] == Top(Reached(root, paths[k]).value);
    }
    if Complaint(root, scope.hwm, scope.all, scope.start, 0, d) {
      var path :| Reached(root, path).Some? && Reached(root, path).value.id == d.id && BadPage(scope, Top(Reached(root, path).value), d);
      var k :| 0 <= k < |paths| && paths[k] == path;
    }
  }

  // check, of the whole database: each complaint that is due, and no other.
  method Check(hwm: Pgid, all: seq<Pgid>, freelist: Option<PageRef>, root: BucketTree) returns (ch: seq<Diagnostic>)
    ensures forall d :: d in ch <==> Complaint(root, hwm, all, Taken(freelist), hwm, d)
    ensures forall d :: d in ch <==> Due(Scope(hwm, all, Taken(freelist)), PagesOf(root), TreesOf(root), hwm, d)
  {
    hide Covers, KeysFine, Doubled, Twice, BadPage, Ids, Complaint;
    var c := new PageCheck(hwm, all, Taken(freelist));
    c.CheckBucket(root);
    assert c.seen == PagesOf(root) && c.trees == TreesOf(root);
    ch := c.ch;
    for i := 0 to hwm
      invariant c.Valid() && c.scope == Scope(hwm, all, Taken(freelist)) && c.seen == PagesOf(root) && c.trees == TreesOf(root)
      invariant forall d :: d in ch <==> Due(c.scope, c.seen, c.trees, i, d)
    {
      if i !in c.reachable && i !in c.freed { ch := ch + [Unreachable(i)]; }
    }
    forall d ensures Complaint(root, hwm, all, Taken(freelist), hwm, d) <==>
      Due(Scope(hwm, all, Taken(freelist)), PagesOf(root), TreesOf(root), hwm, d)
    {
      DueIsByPath(Scope(hwm, all, Taken(freelist)), root, hwm, d);
    }
  }

  lemma {:induction false} FreeByPath(hwm: Pgid, root: BucketTree)
    ensures (exists d :: Complaint(root, hwm, [], {}, 0, d)) <==> (exists d :: Due(Scope(hwm, [], {}), PagesOf(root), TreesOf(root), 0, d))
    ensures forall id :: Covers(PagesOf(root), id) <==> exists path :: HoldsPage(root, path, id)
  {
    hide Due, Covers, Complaint, HoldsPage, PagesOf, TreesOf;
    if d :| Complaint(root, hwm, [], {}, 0, d) { DueIsByPath(Scope(hwm, [], {}), root, 0, d); }
    if d :| Due(Scope(hwm, [], {}), PagesOf(root), TreesOf(root), 0, d) { DueIsByPath(Scope(hwm, [], {}), root, 0, d); }
    forall id ensures Covers(PagesOf(root), id) <==> exists path :: HoldsPage(root, path, id) { CoveredByPath(root, id); }
  }

  // The part of freepages after the walk.
  method Unmet(c: PageCheck, hwm: Pgid) returns (fids: seq<Pgid>)
    requires c.Valid() && c.scope.start == {}
    ensures StrictlySorted(fids) && forall id :: id in fids <==> 2 <= id < hwm && !Covers(c.seen, id)
  {
    hide Due, Covers;
    fids := [];
    for i := 2 to if hwm > 2 then hwm else 2
      invariant StrictlySorted(fids) && forall id :: id in fids <==> 2 <= id < i && !Covers(c.seen, id)
    {
      if i !in c.reachable {
        assert forall k :: 0 <= k < |fids| ==> fids[k] in fids;
        fids := fids + [i];
      }
    }
  }

  // freepages, by which an opener without a stored freelist finds the free pages; it panics at any complaint.
  method FreePages(hwm: Pgid, root: BucketTree) returns (panics: bool, fids: seq<Pgid>)
    ensures panics <==> exists d :: Complaint(root, hwm, [], {}, 0, d)
    ensures !panics ==> StrictlySorted(fids) && forall id :: id in fids <==> 2 <= id < hwm && forall path :: !HoldsPage(root, path, id)
    ensures panics <==> exists d :: Due(Scope(hwm, [], {}), PagesOf(root), TreesOf(root), 0, d)
    ensures !panics ==> forall id :: id in fids <==> 2 <= id < hwm && !Covers(PagesOf(root), id)
  {
    hide Due, Covers, Complaint, HoldsPage, StrictlySorted;
    FreeByPath(hwm, root);
    fids := [];
    var c := new PageCheck(hwm, [], {});
    c.CheckBucket(root);
    assert c.seen == PagesOf(root) && c.trees == TreesOf(root);
    panics := c.ch != [];
    if panics {
      assert c.ch[0] in c.ch;
      return;
    }
    fids := Unmet(c, hwm);
  }

  // ---- What silence means ----

  ghost predicate BlocksApart(start: set<Pgid>, seen: seq<PageRef>) {
    && (forall k :: 0 <= k < |seen| ==> BlockOf(seen[k]) !! start)
    && (forall j, k :: 0 <= j < k < |seen| ==> BlockOf(seen[j]) !! BlockOf(seen[k]))
  }

  ghost predicate PageFine(scope: Scope, p: PageRef) {
    p.id <= scope.hwm && p.id !in Ids(scope.all) && p.kind != Other
  }

  lemma ApartUndoubled(start: set<Pgid>, seen: seq<PageRef>)
    ensures BlocksApart(start, seen) <==> forall id :: !Doubled(start, seen, id)
  {
    if forall id :: !Doubled(start, seen, id) {
      forall k, id | 0 <= k < |seen| && id in BlockOf(seen[k]) ensures id !in start { assert !Doubled(start, seen, id); }
      forall j, k, id | 0 <= j < k < |seen| && id in BlockOf(seen[j]) ensures id !in BlockOf(seen[k]) {
        assert !Doubled(start, seen, id) && seen[..k][j] == seen[j];
      }
    }
    if BlocksApart(start, seen) {
      forall id ensures !Doubled(start, seen, id) {
        forall k | 0 <= k < |seen| && id in BlockOf(seen[k]) ensures id !in start && !Covers(seen[..k], id) {
          forall j | 0 <= j < k ensures id !in BlockOf(seen[..k][j]) { assert seen[..k][j] == seen[j]; }
        }
      }
    }
  }

  // The check is silent exactly when the free list has no page twice, the blocks share no page with each
  // other, the metas or the freelist, no block starts at a free page, beyond the high water mark or with an
  // unknown type, the keys of every bucket pass, and every page is accounted for.
  lemma SilenceIsOrder(scope: Scope, seen: seq<PageRef>, trees: seq<PageTree>)
    ensures Silent(scope, seen, trees) <==>
      && Distinct(scope.all)
      && BlocksApart(scope.start, seen)
      && (forall k :: 0 <= k < |seen| ==> PageFine(scope, seen[k]))
      && (forall k :: 0 <= k < |trees| ==> KeysFine(trees[k]))
      && (forall id :: 0 <= id < scope.hwm ==> id in scope.start || Covers(seen, id) || id in Ids(scope.all))
  {
    hide BlocksApart, Doubled, Covers, KeysFine;
    ApartUndoubled(scope.start, seen);
    var hwm := scope.hwm;
    if Silent(scope, seen, trees) {
      forall i, j | 0 <= i < j < |scope.all| ensures scope.all[i] != scope.all[j] {
        assert !Due(scope, seen, trees, hwm, AlreadyFreed(scope.all[i]));
      }
      forall id ensures !Doubled(scope.start, seen, id) { assert !Due(scope, seen, trees, hwm, MultipleReferences(id)); }
      forall k | 0 <= k < |seen| ensures PageFine(scope, seen[k]) { SilentPage(scope, seen, trees, k); }
      forall k | 0 <= k < |trees| ensures KeysFine(trees[k]) { assert !Due(scope, seen, trees, hwm, Disordered(trees[k].id)); }
      forall id | 0 <= id < hwm ensures id in scope.start || Covers(seen, id) || id in Ids(scope.all) {
        assert !Due(scope, seen, trees, hwm, Unreachable(id));
      }
    }
  }

  ghost predicate Silent(scope: Scope, seen: seq<PageRef>, trees: seq<PageTree>) {
    forall d :: !Due(scope, seen, trees, scope.hwm, d)
  }

  lemma SilentPage(scope: Scope, seen: seq<PageRef>, trees: seq<PageTree>, k: nat)
    requires Silent(scope, seen, trees) && k < |seen|
    ensures PageFine(scope, seen[k])
  {
    var id := seen[k].id;
    assert !Due(scope, seen, trees, scope.hwm, OutOfBounds(id)) && !Due(scope, seen, trees, scope.hwm, ReachableFreed(id))
      && !Due(scope, seen, trees, scope.hwm, InvalidType(id));
    assert !BadPage(scope, seen[k], OutOfBounds(id)) && !BadPage(scope, seen[k], ReachableFreed(id))
      && !BadPage(scope, seen[k], InvalidType(id));
  }

  // The pages of the freelist, and those after the first of each block, are never looked up in the free
  // list: only where none of them is free does silence mean that no page is both reached and free.
  lemma SilenceMissesTails(scope: Scope, seen: seq<PageRef>, trees: seq<PageTree>)
    requires Silent(scope, seen, trees)
    ensures (forall id :: id in Ids(scope.all) ==> id !in scope.start && !Covers(seen, id)) <==>
      scope.start !! Ids(scope.all) && forall k :: 0 <= k < |seen| ==> Interval(seen[k].id + 1, seen[k].overflow) !! Ids(scope.all)
  {
    hide Silent;
    forall k | 0 <= k < |seen| ensures BlockOf(seen[k]) == {seen[k].id} + Interval(seen[k].id + 1, seen[k].overflow) && seen[k].id !in Ids(scope.all) {
      SilentPage(scope, seen, trees, k);
    }
    if forall id :: id in Ids(scope.all) ==> id !in scope.start && !Covers(seen, id) {
      forall k, id | 0 <= k < |seen| && id in Interval(seen[k].id + 1, seen[k].overflow) ensures id !in Ids(scope.all) {
        assert id in BlockOf(seen[k]);
      }
    }
  }

  // A database in which that goes wrong: page 4 belongs to the block of a leaf and to the free list.
  lemma FreedTailUnnoticed()
    ensures var scope, root := Scope(5, [4], Taken(Some(PageRef(2, 0, Other)))), Rooted(LeafPage(3, 1, []), []);
      Silent(scope, PagesOf(root), TreesOf(root)) && Covers(PagesOf(root), 4) && 4 in Ids(scope.all)
  {
    var scope, root := Scope(5, [4], Taken(Some(PageRef(2, 0, Other)))), Rooted(LeafPage(3, 1, []), []);
    var seen := PagesOf(root);
    assert seen == [PageRef(3, 1, Leaf)] && TreesOf(root) == [LeafPage(3, 1, [])];
    assert scope.start == {0, 1, 2} && BlockOf(seen[0]) == {3, 4};
    assert 3 in BlockOf(seen[0]) && 4 in BlockOf(seen[0]);
    SilenceIsOrder(scope, seen, TreesOf(root));
  }

  // ---- The check of a database in use ----

  ghost predicate IsBlock(p: PageRef, m: Protocol.Meta) {
    p.id in m.blocks && p.overflow == m.blocks[p.id] && m.freelist != Some(p.id) && p.kind != Other
  }

  // The pages of the buckets are the blocks of the last commit, but for the freelist's, each once.
  ghost predicate Enumerates(seen: seq<PageRef>, m: Protocol.Meta) {
    && (forall k :: 0 <= k < |seen| ==> IsBlock(seen[k], m))
    && (forall j, k :: 0 <= j < k < |seen| ==> seen[j].id != seen[k].id)
    && (forall id :: id in m.blocks && m.freelist != Some(id) ==> exists k :: 0 <= k < |seen| && seen[k].id == id)
  }

  function FreelistRef(m: Protocol.Meta): Option<PageRef> {
    if m.freelist.Some? && m.freelist.value in m.blocks then Some(PageRef(m.freelist.value, m.blocks[m.freelist.value], Other)) else None
  }

  lemma ReachedIsTree(seen: seq<PageRef>, m: Protocol.Meta)
    requires Enumerates(seen, m)
    ensures forall p :: p in Protocol.Pages(m.blocks) ==> p in Taken(FreelistRef(m)) || Covers(seen, p)
    ensures forall p :: p in Taken(FreelistRef(m)) || Covers(seen, p) ==> p < 2 || p in Protocol.Pages(m.blocks)
  {
    forall p | p in Protocol.Pages(m.blocks) ensures p in Taken(FreelistRef(m)) || Covers(seen, p) {
      var s :| s in m.blocks && p in Protocol.Block(m.blocks, s);
      if m.freelist != Some(s) {
        var k :| 0 <= k < |seen| && seen[k].id == s;
        assert p in BlockOf(seen[k]);
      }
    }
    forall p | Covers(seen, p) ensures p in Protocol.Pages(m.blocks) {
      var k :| 0 <= k < |seen| && p in BlockOf(seen[k]);
      assert p in Protocol.Block(m.blocks, seen[k].id);
    }
    if FreelistRef(m).Some? {
      forall p | p in BlockOf(FreelistRef(m).value) ensures p in Protocol.Pages(m.blocks) {
        assert p in Protocol.Block(m.blocks, m.freelist.value);
      }
    }
  }

  lemma TreeBlocksApart(seen: seq<PageRef>, m: Protocol.Meta)
    requires Enumerates(seen, m) && Protocol.BlocksOk(m.blocks, m.hwm)
    ensures BlocksApart(Taken(FreelistRef(m)), seen)
  {
    forall k | 0 <= k < |seen| ensures BlockOf(seen[k]) !! Taken(FreelistRef(m)) {
      if FreelistRef(m).Some? { assert seen[k].id < m.freelist.value || m.freelist.value < seen[k].id; }
    }
    forall j, k | 0 <= j < k < |seen| ensures BlockOf(seen[j]) !! BlockOf(seen[k]) {
      assert seen[j].id < seen[k].id || seen[k].id < seen[j].id;
    }
  }

  lemma BlockIsFine(m: Protocol.Meta, scope: Scope, p: PageRef)
    requires IsBlock(p, m) && Protocol.BlocksOk(m.blocks, m.hwm) && scope.hwm == m.hwm && Protocol.Pages(m.blocks) !! Ids(scope.all)
    ensures PageFine(scope, p)
  {
    assert p.id in Protocol.Block(m.blocks, p.id);
    assert p.id in Protocol.Pages(m.blocks);
  }

  // Between two writers the pages below the high water mark are the tree's, free, pending or lost.
  lemma PagesAccounted(s: Protocol.State)
    requires Protocol.Inv(s) && s.writer.None?
    ensures var m, free := s.Current(), s.cat.free + Reclaim.PageIdsOf(s.cat.pending);
      && Protocol.BlocksOk(m.blocks, m.hwm)
      && Protocol.Pages(m.blocks) !! free && s.lost !! free + Protocol.Pages(m.blocks)
      && Protocol.Usable(m.hwm) == free + Protocol.Pages(m.blocks) + s.lost
  {
    hide Protocol.Visible, Protocol.Intact, Protocol.BlocksOk, Protocol.Pages;
    var m := s.Current();
    assert m.txid in s.Open();
    Protocol.TreeApart(s.cat.free, s.cat.pending, s.cat.allocs, m, s.snaps[m.txid].pages);
  }

  // The pages of each bucket's tree are among those seen.
  lemma {:induction false} TreeSeen(b: BucketTree, t: PageTree, p: PageRef)
    requires t in TreesOf(b) && p in PagesIn(t)
    ensures p in PagesOf(b)
    decreases b, 1
  {
    if t != b.pages { TreeSeenAll(b.buckets, t, p); }
  }

  lemma {:induction false} TreeSeenAll(bs: seq<BucketTree>, t: PageTree, p: PageRef)
    requires t in TreesOfAll(bs) && p in PagesIn(t)
    ensures p in PagesOfAll(bs)
    decreases bs, 0
  {
    var last := |bs| - 1;
    if t in TreesOf(bs[last]) { TreeSeen(bs[last], t, p); } else { TreeSeenAll(bs[..last], t, p); }
  }

  lemma {:induction false} OtherIsSeen(t: PageTree) returns (p: PageRef)
    requires HasOther(t)
    ensures p in PagesIn(t) && p.kind == Other
  {
    p := Top(t);
    if t.BranchPage? {
      var i :| 0 <= i < |t.twigs| && HasOther(t.twigs[i].child);
      p := OtherIsSeen(t.twigs[i].child);
      TwigSeen(t.twigs, i, p);
    }
  }

  lemma {:induction false} TwigSeen(twigs: seq<Twig>, i: nat, p: PageRef)
    requires i < |twigs| && p in PagesIn(twigs[i].child)
    ensures p in PagesInAll(twigs)
    decreases |twigs|
  {
    if i < |twigs| - 1 { TwigSeen(twigs[..|twigs| - 1], i, p); }
  }

  // Bucket trees of branches and leaves whose keys pass.
  lemma TreesFine(root: BucketTree, m: Protocol.Meta, k: nat)
    requires Enumerates(PagesOf(root), m) && k < |TreesOf(root)| && KeyOrder.Passes(TreeOf(TreesOf(root)[k]), None, None)
    ensures KeysFine(TreesOf(root)[k])
  {
    var t := TreesOf(root)[k];
    if HasOther(t) {
      var p := OtherIsSeen(t);
      TreeSeen(root, t, p);
    }
  }

  // After any run, between two writers, with the keys in order: the check complains of the pages that
  // aborted transactions have lost, page by page, and of nothing else.
  lemma LossIsReported(s: Protocol.State, all: seq<Pgid>, root: BucketTree)
    requires Protocol.Inv(s) && s.writer.None? && Enumerates(PagesOf(root), s.Current())
    requires Distinct(all) && Ids(all) == s.cat.free + Reclaim.PageIdsOf(s.cat.pending)
    requires forall k :: 0 <= k < |TreesOf(root)| ==> KeyOrder.Passes(TreeOf(TreesOf(root)[k]), None, None)
    ensures var scope := Scope(s.Current().hwm, all, Taken(FreelistRef(s.Current())));
      forall d :: Due(scope, PagesOf(root), TreesOf(root), scope.hwm, d) <==> d.Unreachable? && d.id in s.lost
  {
    hide Protocol.Inv, Covers, BlocksApart, Doubled, Protocol.Pages, Protocol.BlocksOk, FreelistRef, PageFine, IsBlock, KeysFine,
      PagesOf, TreesOf;
    var m, seen := s.Current(), PagesOf(root);
    var scope := Scope(m.hwm, all, Taken(FreelistRef(m)));
    PagesAccounted(s);
    ReachedIsTree(seen, m);
    TreeBlocksApart(seen, m);
    ApartUndoubled(scope.start, seen);
    forall k, d | 0 <= k < |seen| ensures !BadPage(scope, seen[k], d) {
      BlockIsFine(m, scope, seen[k]);
      FineIsNotBad(scope, seen[k], d);
    }
    forall k | 0 <= k < |TreesOf(root)| ensures KeysFine(TreesOf(root)[k]) { TreesFine(root, m, k); }
    forall id: Pgid ensures Due(scope, seen, TreesOf(root), scope.hwm, Unreachable(id)) <==> id in s.lost {
      assert id in Protocol.Usable(m.hwm) <==> 2 <= id < m.hwm;
      assert 0 in scope.start && 1 in scope.start;
      assert id in scope.start || Covers(seen, id) <==> id < 2 || id in Protocol.Pages(m.blocks);
    }
  }

  lemma FineIsNotBad(scope: Scope, p: PageRef, d: Diagnostic)
    requires PageFine(scope, p)
    ensures !BadPage(scope, p, d)
  {
  }

  // The pages that a reopening without a stored freelist takes for free.
  ghost function Unreached(m: Protocol.Meta): set<Pgid> {
    Protocol.Usable(m.hwm) - Protocol.Pages(m.blocks)
  }

  ghost predicate KeysPass(root: BucketTree) {
    forall k :: 0 <= k < |TreesOf(root)| ==> KeyOrder.Passes(TreeOf(TreesOf(root)[k]), None, None)
  }

  // Of a database without a stored freelist, the pages that no bucket reaches are what Reopen needs, and
  // freepages has nothing to complain of but keys out of order.
  lemma UnreachedIsFree(s: Protocol.State, root: BucketTree)
    requires Protocol.Inv(s) && s.Current().freelist.None? && Enumerates(PagesOf(root), s.Current())
    ensures forall id :: 2 <= id < s.Current().hwm && !Covers(PagesOf(root), id) <==> id in Unreached(s.Current())
    ensures (exists d :: Due(Scope(s.Current().hwm, [], {}), PagesOf(root), TreesOf(root), 0, d)) <==> !KeysPass(root)
  {
    hide Covers, BlocksApart, Doubled, Protocol.Pages, Protocol.BlocksOk, PageFine, IsBlock, KeysFine, PagesOf, TreesOf, Due,
      Protocol.OpenOk, Protocol.CatalogOk, Protocol.WriterOk, Protocol.WritingOk, Protocol.Accounted;
    var m, seen := s.Current(), PagesOf(root);
    var scope := Scope(m.hwm, [], {});
    ReachedIsTree(seen, m);
    TreeBlocksApart(seen, m);
    ApartFromLess(seen, Taken(FreelistRef(m)));
    forall k, d | 0 <= k < |seen| ensures !BadPage(scope, seen[k], d) {
      BlockIsFine(m, scope, seen[k]);
      FineIsNotBad(scope, seen[k], d);
    }
    OnlyKeysAreDue(scope, root, m);
    TreeBelowHighWater(m);
  }

  lemma OnlyKeysAreDue(scope: Scope, root: BucketTree, m: Protocol.Meta)
    requires Enumerates(PagesOf(root), m) && BlocksApart({}, PagesOf(root)) && scope.all == [] && scope.start == {}
    requires forall k, d :: 0 <= k < |PagesOf(root)| ==> !BadPage(scope, PagesOf(root)[k], d)
    ensures (exists d :: Due(scope, PagesOf(root), TreesOf(root), 0, d)) <==> !KeysPass(root)
  {
    hide BlocksApart, Doubled, IsBlock, KeysFine, PagesOf, TreesOf, BadPage, Enumerates, HasOther, TreeOf, KeyOrder.Passes;
    var trees := TreesOf(root);
    ApartUndoubled({}, PagesOf(root));
    if !KeysPass(root) {
      var k :| 0 <= k < |trees| && !KeyOrder.Passes(TreeOf(trees[k]), None, None);
      PassingIsFine(trees[k]);
      assert Due(scope, PagesOf(root), trees, 0, Disordered(trees[k].id));
    } else {
      forall k | 0 <= k < |trees| ensures KeysFine(trees[k]) { TreesFine(root, m, k); }
    }
  }

  lemma PassingIsFine(t: PageTree)
    ensures KeysFine(t) ==> KeyOrder.Passes(TreeOf(t), None, None)
  {
  }

  lemma ApartFromLess(seen: seq<PageRef>, start: set<Pgid>)
    requires BlocksApart(start, seen)
    ensures BlocksApart({}, seen)
  {
  }

  lemma TreeBelowHighWater(m: Protocol.Meta)
    requires Protocol.BlocksOk(m.blocks, m.hwm)
    ensures Protocol.Pages(m.blocks) <= Protocol.Usable(m.hwm)
  {
  }
}
