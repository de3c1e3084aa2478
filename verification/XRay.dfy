// traverse of environment/bbolt/internal/surgeon/xray.go: a walk over the page graph with a map of the
// visited pages that only grows. It ends, and it succeeds exactly when the pages unfold to a tree in which
// no page occurs twice.
module XRay {
  import opened PageIds

  // What a page refers to. A bucket of a leaf whose root is 0 lies in the leaf itself.
  datatype Content =
    | MetaPage(root: Pgid)
    | BranchPage(children: seq<Pgid>)
    | LeafPage(buckets: seq<Pgid>)
    | FreelistPage
    | UnknownPage

  function Rooted(buckets: seq<Pgid>): seq<Pgid> {
    if buckets == [] then []
    else (if buckets[0] > 0 then [buckets[0]] else []) + Rooted(buckets[1..])
  }

  // The pages that the walk goes to from a page, in order.
  function Next(c: Content): seq<Pgid> {
    match c
    case MetaPage(root) => [root]
    case BranchPage(children) => children
    case LeafPage(buckets) => Rooted(buckets)
    case FreelistPage => []
    case UnknownPage => []
  }

  // An inline bucket, by its leaf and its index there: its page lies in the leaf.
  type InlinePage = (Pgid, nat)

  ghost predicate IsInline(file: map<Pgid, Content>, p: Pgid, i: nat) {
    p in file && file[p].LeafPage? && i < |file[p].buckets| && file[p].buckets[i] == 0
  }

  // The pages that fail by themselves or by an inline bucket in them.
  ghost function Refused(file: map<Pgid, Content>, rejected: set<Pgid>, inlines: set<InlinePage>): set<Pgid> {
    rejected + set p | p in file && FailsInside(file, p, inlines)
  }

  ghost predicate FailsInside(file: map<Pgid, Content>, p: Pgid, inlines: set<InlinePage>) {
    exists i: nat :: IsInline(file, p, i) && (p, i) in inlines
  }

  // The finite tree that a page unfolds to.
  datatype Walk = Walk(page: Pgid, kids: seq<Walk>)

  ghost predicate Unfolds(file: map<Pgid, Content>, w: Walk) {
    && w.page in file
    && |w.kids| == |Next(file[w.page])|
    && forall i :: 0 <= i < |w.kids| ==> w.kids[i].page == Next(file[w.page])[i] && Unfolds(file, w.kids[i])
  }

  // The page that the i-th reference of a page of each type leads to: a meta's root bucket, a branch's
  // children, and of the buckets in a leaf those with a page of their own; no other page refers to any.
  ghost predicate Refers(c: Content, w: Walk) {
    match c
    case MetaPage(root) => |w.kids| == 1 && w.kids[0].page == root
    case BranchPage(children) => |w.kids| == |children| && forall i :: 0 <= i < |children| ==> w.kids[i].page == children[i]
    case LeafPage(buckets) => exists at: seq<nat> :: Picks(buckets, at) && |w.kids| == |at| && forall i :: 0 <= i < |at| ==> at[i] < |buckets| && w.kids[i].page == buckets[at[i]]
    case FreelistPage => w.kids == []
    case UnknownPage => w.kids == []
  }

  // The indexes of the buckets that are not inline, in order.
  ghost predicate Picks(buckets: seq<Pgid>, at: seq<nat>) {
    && (forall i, j :: 0 <= i < j < |at| ==> at[i] < at[j])
    && (forall k: nat :: k in at <==> k < |buckets| && buckets[k] != 0)
  }

  lemma {:induction false} WalkByType(file: map<Pgid, Content>, w: Walk)
    ensures Unfolds(file, w) <==> w.page in file && Refers(file[w.page], w) && forall i :: 0 <= i < |w.kids| ==> Unfolds(file, w.kids[i])
  {
    hide Rooted, Picks;
    if w.page in file && file[w.page].LeafPage? {
      var buckets := file[w.page].buckets;
      var at := RootedAt(buckets);
      if Refers(file[w.page], w) {
        var other :| Picks(buckets, other) && |w.kids| == |other|
          && forall i :: 0 <= i < |other| ==> other[i] < |buckets| && w.kids[i].page == buckets[other[i]];
        PicksOnce(buckets, at, other);
      }
    }
  }

  lemma {:induction false} NextByType(c: Content, q: Pgid)
    ensures q in Next(c) <==>
      match c
      case MetaPage(root) => q == root
      case BranchPage(children) => q in children
      case LeafPage(buckets) => q in buckets && q != 0
      case FreelistPage => false
      case UnknownPage => false
  {
    hide Rooted;
    if c.LeafPage? {
      var at := RootedAt(c.buckets);
      if q in Rooted(c.buckets) { var i :| 0 <= i < |at| && Rooted(c.buckets)[i] == q; assert at[i] in at; }
      if q in c.buckets && q != 0 {
        var k: nat :| k < |c.buckets| && c.buckets[k] == q;
        assert k in at;
        var i :| 0 <= i < |at| && at[i] == k;
        assert Rooted(c.buckets)[i] == q;
      }
    }
  }

  lemma {:induction false} RootedAt(buckets: seq<Pgid>) returns (at: seq<nat>)
    ensures Picks(buckets, at) && |at| == |Rooted(buckets)|
    ensures forall i :: 0 <= i < |at| ==> at[i] < |buckets| && Rooted(buckets)[i] == buckets[at[i]]
  {
    hide Picks;
    at := [];
    if buckets == [] {
      NoPicks();
    } else {
      var rest := RootedAt(buckets[1..]);
      var first := if buckets[0] > 0 then 1 else 0;
      at := (if buckets[0] > 0 then [0] else []) + Later(rest);
      MorePicks(buckets, rest);
      forall i | 0 <= i < |at| ensures at[i] < |buckets| && Rooted(buckets)[i] == buckets[at[i]] {
        if i >= first { assert at[i] == rest[i - first] + 1 && Rooted(buckets)[i] == Rooted(buckets[1..])[i - first]; }
      }
    }
  }

  lemma NoPicks()
    ensures Picks([], [])
  {
  }

  ghost function Later(at: seq<nat>): (later: seq<nat>)
    ensures |later| == |at| && forall i :: 0 <= i < |at| ==> later[i] == at[i] + 1
  {
    seq(|at|, i requires 0 <= i < |at| => at[i] + 1)
  }

  lemma MorePicks(buckets: seq<Pgid>, rest: seq<nat>)
    requires buckets != [] && Picks(buckets[1..], rest)
    ensures Picks(buckets, (if buckets[0] > 0 then [0] else []) + Later(rest))
  {
    var later := Later(rest);
    var at := (if buckets[0] > 0 then [0] else []) + later;
    forall k: nat ensures k in at <==> k < |buckets| && buckets[k] != 0 {
      if k > 0 { LaterIn(rest, k); }
    }
  }

  lemma LaterIn(at: seq<nat>, k: nat)
    requires k > 0
    ensures k in Later(at) <==> k - 1 in at
  {
    if k - 1 in at {
      var i :| 0 <= i < |at| && at[i] == k - 1;
      assert Later(at)[i] == k;
    }
  }

  lemma {:induction false} PicksOnce(buckets: seq<Pgid>, a: seq<nat>, b: seq<nat>)
    requires Picks(buckets, a) && Picks(buckets, b)
    ensures a == b
  {
    SamePicks(buckets, a, b, 0);
  }

  lemma {:induction false} SamePicks(buckets: seq<Pgid>, a: seq<nat>, b: seq<nat>, n: nat)
    requires Picks(buckets, a) && Picks(buckets, b) && n <= |a| && n <= |b| && a[..n] == b[..n]
    ensures a == b
    decreases |a| - n
  {
    if n < |a| && n < |b| {
      assert a[n] in b && b[n] in a;
      NextPick(a, b, n);
      NextPick(b, a, n);
      assert a[..n + 1] == a[..n] + [a[n]] && b[..n + 1] == b[..n] + [b[n]];
      SamePicks(buckets, a, b, n + 1);
    } else if n < |a| {
      assert a[n] in b;
      NextPick(b, a, n);
    } else if n < |b| {
      assert b[n] in a;
      NextPick(a, b, n);
    }
  }

  // An element of b from n on lies in a from n on.
  lemma NextPick(a: seq<nat>, b: seq<nat>, n: nat)
    requires n < |b| && n <= |a| && a[..n] == b[..n] && b[n] in a
    requires forall i, j :: 0 <= i < j < |a| ==> a[i] < a[j]
    requires forall i, j :: 0 <= i < j < |b| ==> b[i] < b[j]
    ensures n < |a| && a[n] <= b[n]
  {
    forall i | 0 <= i < n ensures a[i] == b[i] { assert a[..n][i] == b[..n][i]; }
    var k :| 0 <= k < |a| && a[k] == b[n];
  }

  ghost function Pages(w: Walk): seq<Pgid>
    decreases w, 1
  {
    [w.page] + PagesOf(w.kids)
  }

  ghost function PagesOf(ws: seq<Walk>): seq<Pgid>
    decreases ws, 0
  {
    if ws == [] then [] else Pages(ws[0]) + PagesOf(ws[1..])
  }

  lemma {:induction false} PagesOfConcat(a: seq<Walk>, b: seq<Walk>)
    ensures PagesOf(a + b) == PagesOf(a) + PagesOf(b)
    decreases |a|
  {
    hide Pages;
    if a == [] {
      assert a + b == b;
    } else {
      PagesOfConcat(a[1..], b);
      assert (a + b)[1..] == a[1..] + b && (a + b)[0] == a[0];
      assert Pages(a[0]) + (PagesOf(a[1..]) + PagesOf(b)) == Pages(a[0]) + PagesOf(a[1..]) + PagesOf(b);
    }
  }

  // A page unfolds in one way only.
  lemma {:induction false} UnfoldsOnce(file: map<Pgid, Content>, w: Walk, w': Walk)
    requires Unfolds(file, w) && Unfolds(file, w') && w.page == w'.page
    ensures w == w'
  {
    forall i | 0 <= i < |w.kids| ensures w.kids[i] == w'.kids[i] { UnfoldsOnce(file, w.kids[i], w'.kids[i]); }
    assert w.kids == w'.kids;
  }

  // The walk to succeed: no page twice, none visited before, none that the callback rejects.
  ghost predicate Clean(pages: seq<Pgid>, visited: set<Pgid>, rejected: set<Pgid>) {
    Distinct(pages) && forall p :: p in pages ==> p !in visited && p !in rejected
  }

  ghost predicate Walkable(file: map<Pgid, Content>, page: Pgid, w: Walk, visited: set<Pgid>, rejected: set<Pgid>) {
    Unfolds(file, w) && w.page == page && Clean(Pages(w), visited, rejected)
  }

  ghost function AsSet(pages: seq<Pgid>): set<Pgid> {
    set p | p in pages
  }

  lemma CleanConcat(a: seq<Pgid>, b: seq<Pgid>, visited: set<Pgid>, rejected: set<Pgid>)
    ensures Clean(a + b, visited, rejected) <==> Clean(a, visited, rejected) && Clean(b, visited + AsSet(a), rejected)
    ensures AsSet(a + b) == AsSet(a) + AsSet(b)
  {
    if Clean(a + b, visited, rejected) { CleanParts(a, b, visited, rejected); }
    if Clean(a, visited, rejected) && Clean(b, visited + AsSet(a), rejected) {
      var c := a + b;
      forall i, j | 0 <= i < j < |c| ensures c[i] != c[j] {
        if i < |a| <= j { assert c[i] == a[i] && c[j] == b[j - |a|] && a[i] in a && b[j - |a|] in b; }
      }
    }
  }

  lemma CleanParts(a: seq<Pgid>, b: seq<Pgid>, visited: set<Pgid>, rejected: set<Pgid>)
    requires Clean(a + b, visited, rejected)
    ensures Clean(a, visited, rejected) && Clean(b, visited + AsSet(a), rejected)
  {
    forall i, j | 0 <= i < j < |a| ensures a[i] != a[j] { assert (a + b)[i] == a[i] && (a + b)[j] == a[j]; }
    forall i, j | 0 <= i < j < |b| ensures b[i] != b[j] { assert (a + b)[|a| + i] == b[i] && (a + b)[|a| + j] == b[j]; }
    forall p | p in b ensures p !in AsSet(a) && p !in visited && p !in rejected {
      var j :| 0 <= j < |b| && b[j] == p;
      assert (a + b)[|a| + j] == p && p in a + b;
      forall i | 0 <= i < |a| ensures a[i] != p { assert (a + b)[i] == a[i]; }
    }
    forall p | p in a ensures p !in visited && p !in rejected { assert p in a + b; }
  }

  // Walks for a list of pages.
  ghost predicate UnfoldAll(file: map<Pgid, Content>, pages: seq<Pgid>, ws: seq<Walk>) {
    |ws| == |pages| && forall i :: 0 <= i < |ws| ==> ws[i].page == pages[i] && Unfolds(file, ws[i])
  }

  lemma {:induction false} UnfoldAllOnce(file: map<Pgid, Content>, pages: seq<Pgid>, ws: seq<Walk>, ws': seq<Walk>)
    requires UnfoldAll(file, pages, ws) && UnfoldAll(file, pages, ws')
    ensures ws == ws'
  {
    forall i | 0 <= i < |ws| ensures ws[i] == ws'[i] { UnfoldsOnce(file, ws[i], ws'[i]); }
  }

  // When the walk fails at page i after the others have succeeded, no walk over all can succeed.
  lemma {:induction false} FailsAt(file: map<Pgid, Content>, pages: seq<Pgid>, i: nat, ws: seq<Walk>, all: seq<Walk>,
      visited: set<Pgid>, rejected: set<Pgid>)
    requires i < |pages| && UnfoldAll(file, pages[..i], ws) && UnfoldAll(file, pages, all)
    requires forall w :: !Walkable(file, pages[i], w, visited + AsSet(PagesOf(ws)), rejected)
    ensures !Clean(PagesOf(all), visited, rejected)
  {
    hide Clean, Unfolds, AsSet;
    UnfoldAllOnce(file, pages[..i], ws, all[..i]);
    assert all == ws + [all[i]] + all[i + 1..];
    PagesOfConcat(ws + [all[i]], all[i + 1..]);
    PagesOfConcat(ws, [all[i]]);
    assert PagesOf([all[i]]) == Pages(all[i]) + PagesOf([]);
    assert Pages(all[i]) + [] == Pages(all[i]);
    CleanConcat(PagesOf(ws) + Pages(all[i]), PagesOf(all[i + 1..]), visited, rejected);
    CleanConcat(PagesOf(ws), Pages(all[i]), visited, rejected);
    assert !Walkable(file, pages[i], all[i], visited + AsSet(PagesOf(ws)), rejected);
  }

  // All inline buckets in these leaves have been handed to the callback.
  ghost predicate Handed(file: map<Pgid, Content>, pages: seq<Pgid>, inlineSeen: set<InlinePage>) {
    forall p, i: nat :: p in pages && IsInline(file, p, i) ==> (p, i) in inlineSeen
  }

  lemma HandedParts(file: map<Pgid, Content>, a: seq<Pgid>, b: seq<Pgid>, inlineSeen: set<InlinePage>, more: set<InlinePage>)
    requires Handed(file, a, inlineSeen) && Handed(file, b, more) && inlineSeen <= more
    ensures Handed(file, a + b, more)
  {
    forall p, i: nat | p in a + b && IsInline(file, p, i) ensures (p, i) in more { assert p in a || p in b; }
  }

  lemma NoneHanded(file: map<Pgid, Content>, inlineSeen: set<InlinePage>)
    ensures Handed(file, [], inlineSeen)
  {
  }

  // The references of a leaf up to one bucket.
  lemma {:induction false} RootedTo(buckets: seq<Pgid>, i: nat)
    requires i < |buckets|
    ensures Rooted(buckets[..i + 1]) == Rooted(buckets[..i]) + if buckets[i] > 0 then [buckets[i]] else []
    ensures Rooted(buckets) == Rooted(buckets[..i]) + Rooted(buckets[i..])
    ensures buckets[i] > 0 ==> Rooted(buckets[i..]) != [] && Rooted(buckets[i..])[0] == buckets[i]
  {
    hide Rooted;
    RootedConcat(buckets[..i], buckets[i..]);
    RootedConcat(buckets[..i], [buckets[i]]);
    assert buckets[..i] + [buckets[i]] == buckets[..i + 1] && buckets[..i] + buckets[i..] == buckets;
    OneRooted(buckets[i], buckets[i + 1..]);
    assert [buckets[i]] + buckets[i + 1..] == buckets[i..];
  }

  lemma {:induction false} RootedConcat(a: seq<Pgid>, b: seq<Pgid>)
    ensures Rooted(a + b) == Rooted(a) + Rooted(b)
  {
    hide Rooted;
    if a == [] {
      NoneRooted();
      assert a + b == b;
    } else {
      RootedConcat(a[1..], b);
      OneRooted(a[0], a[1..]);
      OneRooted(a[0], a[1..] + b);
      assert [a[0]] + a[1..] == a && [a[0]] + (a[1..] + b) == a + b;
    }
  }

  lemma OneRooted(b: Pgid, rest: seq<Pgid>)
    ensures Rooted([b]) == (if b > 0 then [b] else [])
    ensures Rooted([b] + rest) == (if b > 0 then [b] else []) + Rooted(rest)
  {
    assert [b][1..] == [] && ([b] + rest)[1..] == rest;
  }

  class XRay {
    const file: map<Pgid, Content>
    // The pages, and the inline pages, for which the callback returns an error.
    const rejected: set<Pgid>
    const rejectedInline: set<InlinePage>
    var visited: set<Pgid>
    // The calls of the callback.
    var seen: seq<Pgid>
    var inlineSeen: set<InlinePage>

    constructor (file: map<Pgid, Content>, rejected: set<Pgid>, rejectedInline: set<InlinePage>)
      ensures this.file == file && this.rejected == rejected && this.rejectedInline == rejectedInline
      ensures visited == {} && seen == [] && inlineSeen == {}
    {
      this.file, this.rejected, this.rejectedInline := file, rejected, rejectedInline;
      visited, seen, inlineSeen := {}, [], {};
    }

    ghost function Bad(): set<Pgid> {
      Refused(file, rejected, rejectedInline)
    }

    method Traverse(page: Pgid) returns (failed: bool, ghost w: Walk)
      modifies this`visited, this`seen, this`inlineSeen
      ensures old(visited) <= visited && old(inlineSeen) <= inlineSeen
      ensures !failed ==> Walkable(file, page, w, old(visited), Bad()) && Handed(file, Pages(w), inlineSeen)
      ensures !failed ==> visited == old(visited) + AsSet(Pages(w)) && seen == old(seen) + Pages(w)
      ensures failed ==> forall w' :: !Walkable(file, page, w', old(visited), Bad())
      decreases file.Keys - visited, 0
    {
      hide Unfolds, Handed, Refused, Clean, UnfoldAll, Walkable, Next, Rooted, AsSet;
      w := Walk(page, []);
      if page in visited || page !in file {
        visited := visited + {page};
        forall w' ensures !Walkable(file, page, w', old(visited), Bad()) { FirstIsClean(file, page, w', old(visited), Bad()); }
        return true, w;
      }
      visited := visited + {page};
      seen := seen + [page];
      BadByItself(file, rejected, rejectedInline, page);
      if page in rejected {
        forall w' ensures !Walkable(file, page, w', old(visited), Bad()) { FirstIsClean(file, page, w', old(visited), Bad()); }
        return true, w;
      }
      ghost var kids;
      if file[page].LeafPage? {
        LeafNext(file[page]);
        failed, kids := TraverseLeaf(page, file[page].buckets);
      } else {
        failed, kids := TraverseAll(Next(file[page]));
        NoInlines(file, page, inlineSeen);
      }
      w := Walk(page, kids);
      if page in Bad() {
        forall w' ensures !Walkable(file, page, w', old(visited), Bad()) { FirstIsClean(file, page, w', old(visited), Bad()); }
      } else {
        assert failed ==> forall ws' :: UnfoldAll(file, Next(file[page]), ws') ==> !Clean(PagesOf(ws'), old(visited) + {page}, Bad());
        forall w' ensures Walkable(file, page, w', old(visited), Bad()) ==> !failed { FirstThenKids(file, page, w', old(visited), Bad()); }
        FirstThenKids(file, page, w, old(visited), Bad());
        if !failed {
          OneThenRest(page, PagesOf(kids));
          assert Pages(w) == [page] + PagesOf(kids);
          HandedParts(file, [page], PagesOf(kids), inlineSeen, inlineSeen);
        }
      }
    }

    // The loop over the pages that a page refers to.
    method TraverseAll(pages: seq<Pgid>) returns (failed: bool, ghost ws: seq<Walk>)
      modifies this`visited, this`seen, this`inlineSeen
      ensures old(visited) <= visited && old(inlineSeen) <= inlineSeen
      ensures !failed ==> UnfoldAll(file, pages, ws) && Clean(PagesOf(ws), old(visited), Bad()) && Handed(file, PagesOf(ws), inlineSeen)
      ensures !failed ==> visited == old(visited) + AsSet(PagesOf(ws)) && seen == old(seen) + PagesOf(ws)
      ensures failed ==> forall ws' :: UnfoldAll(file, pages, ws') ==> !Clean(PagesOf(ws'), old(visited), Bad())
      decreases file.Keys - visited, 1
    {
      hide Unfolds, Clean, AsSet, Handed, Refused;
      ws := [];
      NothingWalked(old(visited), Bad());
      NoneHanded(file, inlineSeen);
      for i := 0 to |pages|
        invariant old(visited) <= visited && old(inlineSeen) <= inlineSeen
        invariant UnfoldAll(file, pages[..i], ws) && Clean(PagesOf(ws), old(visited), Bad()) && Handed(file, PagesOf(ws), inlineSeen)
        invariant visited == old(visited) + AsSet(PagesOf(ws)) && seen == old(seen) + PagesOf(ws)
      {
        ghost var w, before := Walk(0, []), inlineSeen;
        failed, w := Traverse(pages[i]);
        if failed {
          forall ws' | UnfoldAll(file, pages, ws') ensures !Clean(PagesOf(ws'), old(visited), Bad()) {
            FailsAt(file, pages, i, ws, ws', old(visited), Bad());
          }
          return;
        }
        OneMoreWalk(ws, w, old(visited), Bad());
        HandedParts(file, PagesOf(ws), Pages(w), before, inlineSeen);
        ws := ws + [w];
      }
      assert pages[..|pages|] == pages;
      failed := false;
    }

    // The loop over a leaf: on to the root pages of its buckets, but for the inline ones, whose pages go
    // to the callback.
    method TraverseLeaf(page: Pgid, buckets: seq<Pgid>) returns (failed: bool, ghost ws: seq<Walk>)
      requires page in file && file[page] == LeafPage(buckets)
      modifies this`visited, this`seen, this`inlineSeen
      ensures old(visited) <= visited && old(inlineSeen) <= inlineSeen
      ensures !failed ==> UnfoldAll(file, Rooted(buckets), ws) && Clean(PagesOf(ws), old(visited), Bad())
      ensures !failed ==> !FailsInside(file, page, rejectedInline) && Handed(file, [page], inlineSeen) && Handed(file, PagesOf(ws), inlineSeen)
      ensures !failed ==> visited == old(visited) + AsSet(PagesOf(ws)) && seen == old(seen) + PagesOf(ws)
      ensures failed ==> page in Bad() || forall ws' :: UnfoldAll(file, Rooted(buckets), ws') ==> !Clean(PagesOf(ws'), old(visited), Bad())
      decreases file.Keys - visited, 1
    {
      hide Unfolds, Clean, AsSet, Handed, Refused, Rooted;
      ws := [];
      NothingWalked(old(visited), Bad());
      NoneHanded(file, inlineSeen);
      NoneRooted();
      assert buckets[..0] == [];
      for i := 0 to |buckets|
        invariant old(visited) <= visited && old(inlineSeen) <= inlineSeen
        invariant UnfoldAll(file, Rooted(buckets[..i]), ws) && Clean(PagesOf(ws), old(visited), Bad()) && Handed(file, PagesOf(ws), inlineSeen)
        invariant visited == old(visited) + AsSet(PagesOf(ws)) && seen == old(seen) + PagesOf(ws)
        invariant forall j :: 0 <= j < i && buckets[j] == 0 ==> (page, j) in inlineSeen && (page, j) !in rejectedInline
      {
        RootedTo(buckets, i);
        ghost var before := inlineSeen;
        if buckets[i] > 0 {
          ghost var w;
          failed, w := Traverse(buckets[i]);
          if failed {
            forall ws' | UnfoldAll(file, Rooted(buckets), ws') ensures !Clean(PagesOf(ws'), old(visited), Bad()) {
              FailsAt(file, Rooted(buckets), |Rooted(buckets[..i])|, ws, ws', old(visited), Bad());
            }
            return;
          }
          OneMoreWalk(ws, w, old(visited), Bad());
          HandedParts(file, PagesOf(ws), Pages(w), before, inlineSeen);
          ws := ws + [w];
        } else {
          inlineSeen := inlineSeen + {(page, i)};
          HandedStay(file, PagesOf(ws), before, inlineSeen);
          if (page, i) in rejectedInline {
            BadInside(file, rejected, rejectedInline, page, i);
            return true, ws;
          }
        }
      }
      assert buckets[..|buckets|] == buckets;
      LeafHanded(file, page, inlineSeen);
      failed := false;
    }
  }

  lemma LeafNext(c: Content)
    requires c.LeafPage?
    ensures Next(c) == Rooted(c.buckets)
  {
  }

  lemma NoneRooted()
    ensures Rooted([]) == []
  {
  }

  lemma HandedStay(file: map<Pgid, Content>, pages: seq<Pgid>, inlineSeen: set<InlinePage>, more: set<InlinePage>)
    requires Handed(file, pages, inlineSeen) && inlineSeen <= more
    ensures Handed(file, pages, more)
  {
  }

  lemma LeafHanded(file: map<Pgid, Content>, page: Pgid, inlineSeen: set<InlinePage>)
    requires page in file && file[page].LeafPage?
    requires forall j :: 0 <= j < |file[page].buckets| && file[page].buckets[j] == 0 ==> (page, j) in inlineSeen
    ensures Handed(file, [page], inlineSeen)
  {
  }

  lemma NoInlines(file: map<Pgid, Content>, page: Pgid, inlineSeen: set<InlinePage>)
    requires page in file && !file[page].LeafPage?
    ensures Handed(file, [page], inlineSeen) && forall inlines :: !FailsInside(file, page, inlines)
  {
  }

  lemma BadByItself(file: map<Pgid, Content>, rejected: set<Pgid>, inlines: set<InlinePage>, page: Pgid)
    requires page in file
    ensures page in Refused(file, rejected, inlines) <==> page in rejected || FailsInside(file, page, inlines)
  {
  }

  lemma BadInside(file: map<Pgid, Content>, rejected: set<Pgid>, inlines: set<InlinePage>, page: Pgid, i: nat)
    requires IsInline(file, page, i) && (page, i) in inlines
    ensures page in Refused(file, rejected, inlines)
  {
  }

  lemma NothingWalked(visited: set<Pgid>, rejected: set<Pgid>)
    ensures Clean([], visited, rejected) && visited + AsSet([]) == visited && PagesOf([]) == []
  {
  }

  lemma OneMoreWalk(ws: seq<Walk>, w: Walk, visited: set<Pgid>, rejected: set<Pgid>)
    requires Clean(PagesOf(ws), visited, rejected) && Clean(Pages(w), visited + AsSet(PagesOf(ws)), rejected)
    ensures PagesOf(ws + [w]) == PagesOf(ws) + Pages(w)
    ensures Clean(PagesOf(ws + [w]), visited, rejected)
    ensures visited + AsSet(PagesOf(ws + [w])) == visited + AsSet(PagesOf(ws)) + AsSet(Pages(w))
  {
    hide Clean;
    PagesOfConcat(ws, [w]);
    assert PagesOf([w]) == Pages(w) + PagesOf([]) == Pages(w);
    CleanConcat(PagesOf(ws), Pages(w), visited, rejected);
  }

  lemma OneThenRest(page: Pgid, rest: seq<Pgid>)
    ensures AsSet([page] + rest) == {page} + AsSet(rest)
  {
  }

  lemma FirstIsClean(file: map<Pgid, Content>, page: Pgid, w: Walk, visited: set<Pgid>, rejected: set<Pgid>)
    ensures Walkable(file, page, w, visited, rejected) ==> page in file && page !in visited && page !in rejected
  {
    assert Pages(w)[0] == w.page && w.page in Pages(w);
  }

  lemma FirstThenKids(file: map<Pgid, Content>, page: Pgid, w: Walk, visited: set<Pgid>, rejected: set<Pgid>)
    requires page in file && page !in visited && page !in rejected
    ensures Walkable(file, page, w, visited, rejected) <==>
      w.page == page && UnfoldAll(file, Next(file[page]), w.kids) && Clean(PagesOf(w.kids), visited + {page}, rejected)
  {
    CleanConcat([w.page], PagesOf(w.kids), visited, rejected);
    OneThenRest(w.page, []);
    assert AsSet([w.page]) == {w.page};
  }

  // A path of references.
  ghost predicate IsPath(file: map<Pgid, Content>, path: seq<Pgid>) {
    path != [] && forall i :: 0 <= i < |path| - 1 ==> path[i] in file && path[i + 1] in Next(file[path[i]])
  }

  ghost predicate Reaches(file: map<Pgid, Content>, p: Pgid, q: Pgid) {
    exists path :: IsPath(file, path) && path[0] == p && path[|path| - 1] == q
  }

  // A page that leads back to itself.
  ghost predicate OnCycle(file: map<Pgid, Content>, q: Pgid) {
    exists path :: IsPath(file, path) && |path| > 1 && path[0] == q && path[|path| - 1] == q
  }

  ghost function Size(w: Walk): nat
    decreases w, 1
  {
    1 + SizeOf(w.kids)
  }

  ghost function SizeOf(ws: seq<Walk>): nat
    decreases ws, 0
  {
    if ws == [] then 0 else Size(ws[0]) + SizeOf(ws[1..])
  }

  lemma {:induction false} KidIsSmaller(ws: seq<Walk>, i: nat)
    requires i < |ws|
    ensures Size(ws[i]) <= SizeOf(ws) && forall p :: p in Pages(ws[i]) ==> p in PagesOf(ws)
    decreases i
  {
    if i > 0 { KidIsSmaller(ws[1..], i - 1); }
  }

  // The walk at the end of a path.
  lemma {:induction false} Under(file: map<Pgid, Content>, w: Walk, path: seq<Pgid>) returns (sub: Walk)
    requires Unfolds(file, w) && IsPath(file, path) && path[0] == w.page
    ensures Unfolds(file, sub) && sub.page == path[|path| - 1] && sub.page in Pages(w)
    ensures Size(sub) + |path| <= Size(w) + 1
    decreases |path|
  {
    sub := w;
    assert w.page == Pages(w)[0];
    if |path| > 1 {
      var i :| 0 <= i < |w.kids| && Next(file[w.page])[i] == path[1];
      var rest := path[1..];
      assert IsPath(file, rest) by {
        forall k | 0 <= k < |rest| - 1 ensures rest[k] in file && rest[k + 1] in Next(file[rest[k]]) {
          assert path[k + 1] == rest[k] && path[k + 2] == rest[k + 1];
        }
      }
      sub := Under(file, w.kids[i], rest);
      KidIsSmaller(w.kids, i);
    }
  }

  // A page that reaches a cycle does not unfold.
  lemma {:induction false} CyclesDoNotUnfold(file: map<Pgid, Content>, w: Walk, q: Pgid)
    requires Reaches(file, w.page, q) && OnCycle(file, q)
    ensures !Unfolds(file, w)
  {
    if Unfolds(file, w) {
      var path :| IsPath(file, path) && path[0] == w.page && path[|path| - 1] == q;
      var cycle :| IsPath(file, cycle) && |cycle| > 1 && cycle[0] == q && cycle[|cycle| - 1] == q;
      var w1 := Under(file, w, path);
      var w2 := Under(file, w1, cycle);
      UnfoldsOnce(file, w1, w2);
    }
  }

  // The whole walk from a page: it fails if a cycle is reachable, and otherwise, when it does not fail,
  // the callback has seen every reachable page once, and every inline page in one.
  method Examine(file: map<Pgid, Content>, rejected: set<Pgid>, rejectedInline: set<InlinePage>, root: Pgid)
    returns (failed: bool, seen: seq<Pgid>, inlineSeen: set<InlinePage>)
    ensures (exists q :: Reaches(file, root, q) && OnCycle(file, q)) ==> failed
    ensures !failed ==> Distinct(seen) && forall q :: Reaches(file, root, q) ==> q in seen && q in file && q !in rejected
    ensures !failed ==> forall q: Pgid, i: nat :: Reaches(file, root, q) && IsInline(file, q, i) ==> (q, i) in inlineSeen && (q, i) !in rejectedInline
    ensures failed <==> forall w :: !Walkable(file, root, w, {}, Refused(file, rejected, rejectedInline))
  {
    hide Unfolds, Reaches, OnCycle;
    var x := new XRay(file, rejected, rejectedInline);
    ghost var w;
    failed, w := x.Traverse(root);
    seen, inlineSeen := x.seen, x.inlineSeen;
    assert x.Bad() == Refused(file, rejected, rejectedInline);
    if !failed {
      assert Walkable(file, root, w, {}, Refused(file, rejected, rejectedInline));
      assert seen == Pages(w) by { assert [] + Pages(w) == Pages(w); }
      forall q | Reaches(file, root, q)
        ensures q in seen && q in file && q !in rejected && !FailsInside(file, q, rejectedInline)
      {
        ReachedIsSeen(file, w, q);
        BadByItself(file, rejected, rejectedInline, q);
      }
      forall q ensures !(Reaches(file, root, q) && OnCycle(file, q)) {
        if Reaches(file, root, q) && OnCycle(file, q) { CyclesDoNotUnfold(file, w, q); }
      }
    }
  }

  lemma ReachedIsSeen(file: map<Pgid, Content>, w: Walk, q: Pgid)
    requires Unfolds(file, w) && Reaches(file, w.page, q)
    ensures q in Pages(w) && q in file
  {
    var path :| IsPath(file, path) && path[0] == w.page && path[|path| - 1] == q;
    var sub := Under(file, w, path);
  }

  // A page with two references and no cycle is refused as well, although the message says otherwise.
  lemma {:induction false} SharedPageIsRefused(file: map<Pgid, Content>)
    requires 2 in file && file[2] == BranchPage([3, 3]) && 3 in file && file[3] == LeafPage([])
    ensures exists w: Walk :: w.page == 2 && Unfolds(file, w)
    ensures forall w :: !Walkable(file, 2, w, {}, {})
  {
    var leaf := Walk(3, []);
    assert Unfolds(file, leaf);
    var twice := Walk(2, [leaf, leaf]);
    assert Unfolds(file, twice);
    assert [leaf, leaf][1..] == [leaf] && [leaf][1..] == [];
    assert Pages(leaf) == [3];
    assert PagesOf([leaf]) == [3];
    assert Pages(twice) == [2, 3, 3];
    assert Pages(twice)[1] == Pages(twice)[2];
    forall w ensures !Walkable(file, 2, w, {}, {}) {
      if Unfolds(file, w) && w.page == 2 { UnfoldsOnce(file, w, twice); }
    }
  }
}
