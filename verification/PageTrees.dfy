// The pages of a database as environment/bbolt/tx_check.go and environment/bbolt/tx.go walk them: the tree of
// pages of each bucket, and the buckets in it; and what a walk meets, by the path that leads there.
module PageTrees {
  import opened Inodes
  import opened Keys
  import opened Options
  import opened PageIds
  import Trees

  datatype Kind = Branch | Leaf | Other

  datatype PageRef = PageRef(id: Pgid, overflow: nat, kind: Kind)

  datatype Twig = Twig(key: Key, child: PageTree)

  // The pages under a page, with their keys.
  datatype PageTree =
    | LeafPage(id: Pgid, overflow: nat, items: seq<Inode>)
    | BranchPage(id: Pgid, overflow: nat, twigs: seq<Twig>)
    | OtherPage(id: Pgid, overflow: nat)

  // A bucket: its pages, and the buckets in its leaves. An inline bucket has no pages.
  datatype BucketTree = Inline | Rooted(pages: PageTree, buckets: seq<BucketTree>)

  function Top(t: PageTree): PageRef {
    PageRef(t.id, t.overflow, match t case LeafPage(_, _, _) => Leaf case BranchPage(_, _, _) => Branch case OtherPage(_, _) => Other)
  }

  function BlockOf(p: PageRef): set<Pgid> {
    Interval(p.id, p.overflow + 1)
  }

  // The pages in the order of the check.
  ghost function PagesIn(t: PageTree): seq<PageRef>
    decreases t, 1
  {
    [Top(t)] + if t.BranchPage? then PagesInAll(t.twigs) else []
  }

  ghost function PagesInAll(twigs: seq<Twig>): seq<PageRef>
    decreases twigs, 0
  {
    if twigs == [] then [] else PagesInAll(twigs[..|twigs| - 1]) + PagesIn(twigs[|twigs| - 1].child)
  }

  ghost function PagesOf(b: BucketTree): seq<PageRef>
    decreases b, 1
  {
    if b.Inline? then [] else PagesIn(b.pages) + PagesOfAll(b.buckets)
  }

  ghost function PagesOfAll(bs: seq<BucketTree>): seq<PageRef>
    decreases bs, 0
  {
    if bs == [] then [] else PagesOfAll(bs[..|bs| - 1]) + PagesOf(bs[|bs| - 1])
  }

  // The trees of the buckets, in the same order.
  ghost function TreesOf(b: BucketTree): seq<PageTree>
    decreases b, 1
  {
    if b.Inline? then [] else [b.pages] + TreesOfAll(b.buckets)
  }

  ghost function TreesOfAll(bs: seq<BucketTree>): seq<PageTree>
    decreases bs, 0
  {
    if bs == [] then [] else TreesOfAll(bs[..|bs| - 1]) + TreesOf(bs[|bs| - 1])
  }

  // What the recursion over the keys sees; a page of another type is as good as empty to it.
  function TreeOf(t: PageTree): Trees.Tree {
    match t
    case LeafPage(_, _, items) => Trees.Leaf(items)
    case BranchPage(_, _, twigs) =>
      Trees.Branch(seq(|twigs|, i requires 0 <= i < |twigs| => Trees.Elem(twigs[i].key, TreeOf(twigs[i].child))))
    case OtherPage(_, _) => Trees.Leaf([])
  }

  predicate HasOther(t: PageTree) {
    t.OtherPage? || (t.BranchPage? && exists i :: 0 <= i < |t.twigs| && HasOther(t.twigs[i].child))
  }

  // ---- Paths ----

  // The page at the end of a path of indexes, each among the children of the page before.
  ghost function PageAt(t: PageTree, down: seq<nat>): Option<PageTree>
    decreases |down|, 1
  {
    if down == [] then Some(t) else if t.BranchPage? then PageBelow(t.twigs, down) else None
  }

  ghost function PageBelow(twigs: seq<Twig>, down: seq<nat>): Option<PageTree>
    decreases |down|, 0
  {
    if down != [] && down[0] < |twigs| then PageAt(twigs[down[0]].child, down[1..]) else None
  }

  // The bucket at the end of a path of indexes, each among the buckets in the one before.
  ghost function BucketAt(b: BucketTree, at: seq<nat>): Option<BucketTree>
    decreases |at|, 1
  {
    if at == [] then Some(b) else if b.Rooted? then BucketBelow(b.buckets, at) else None
  }

  ghost function BucketBelow(bs: seq<BucketTree>, at: seq<nat>): Option<BucketTree>
    decreases |at|, 0
  {
    if at != [] && at[0] < |bs| then BucketAt(bs[at[0]], at[1..]) else None
  }

  // The pages of the bucket there, unless it is inline.
  ghost function RootAt(root: BucketTree, at: seq<nat>): Option<PageTree> {
    var b := BucketAt(root, at);
    if b.Some? && b.value.Rooted? then Some(b.value.pages) else None
  }

  // First to a bucket, then down its pages.
  datatype Path = Path(at: seq<nat>, down: seq<nat>)

  ghost function Reached(root: BucketTree, path: Path): Option<PageTree> {
    var t := RootAt(root, path.at);
    if t.Some? then PageAt(t.value, path.down) else None
  }

  // The paths to the pages of a bucket, in the order of the walk.
  ghost function DownsIn(t: PageTree): seq<seq<nat>>
    decreases t, 1
  {
    [[]] + if t.BranchPage? then DownsInAll(t.twigs) else []
  }

  ghost function DownsInAll(twigs: seq<Twig>): seq<seq<nat>>
    decreases twigs, 0
  {
    if twigs == [] then [] else
      var last := |twigs| - 1;
      DownsInAll(twigs[..last]) + Below(last, DownsIn(twigs[last].child))
  }

  ghost function Below(i: nat, paths: seq<seq<nat>>): (r: seq<seq<nat>>)
    ensures |r| == |paths| && forall k :: 0 <= k < |r| ==> r[k] == [i] + paths[k]
  {
    seq(|paths|, k requires 0 <= k < |paths| => [i] + paths[k])
  }

  // The paths of the first n children, each once and all of them.
  ghost predicate ListsDowns(twigs: seq<Twig>, n: nat, downs: seq<seq<nat>>, refs: seq<PageRef>) {
    && |downs| == |refs|
    && (forall k :: 0 <= k < |downs| ==> DownRef(twigs, n, downs[k], refs[k]))
    && (forall j, k :: 0 <= j < k < |downs| ==> downs[j] != downs[k])
    && (forall down :: down != [] && down[0] < n && PageBelow(twigs, down).Some? ==> down in downs)
  }

  ghost predicate DownRef(twigs: seq<Twig>, n: nat, down: seq<nat>, p: PageRef) {
    down != [] && down[0] < n && PageBelow(twigs, down).Some? && p == Top(PageBelow(twigs, down).value)
  }

  // The walk meets the pages by these paths, each page once for each path.
  lemma {:induction false} DownsMeetPages(t: PageTree)
    ensures var downs := DownsIn(t);
      && |downs| == |PagesIn(t)|
      && (forall k :: 0 <= k < |downs| ==> PageAt(t, downs[k]).Some? && PagesIn(t)[k] == Top(PageAt(t, downs[k]).value))
      && (forall j, k :: 0 <= j < k < |downs| ==> downs[j] != downs[k])
      && (forall down :: PageAt(t, down).Some? ==> down in downs)
    decreases t, 1, 0
  {
    hide ListsDowns, PageBelow;
    if t.BranchPage? {
      DownsOfTwigs(t.twigs, |t.twigs|);
      assert t.twigs[..|t.twigs|] == t.twigs;
      ListsAll(t.twigs, DownsInAll(t.twigs), PagesInAll(t.twigs));
    }
    forall down | PageAt(t, down).Some? ensures down in DownsIn(t) {
      if down == [] { assert DownsIn(t)[0] == []; } else { assert down in DownsInAll(t.twigs); }
    }
  }

  lemma ListsAll(twigs: seq<Twig>, downs: seq<seq<nat>>, refs: seq<PageRef>)
    requires ListsDowns(twigs, |twigs|, downs, refs)
    ensures |downs| == |refs|
    ensures forall k :: 0 <= k < |downs| ==>
      downs[k] != [] && PageBelow(twigs, downs[k]).Some? && refs[k] == Top(PageBelow(twigs, downs[k]).value)
    ensures forall j, k :: 0 <= j < k < |downs| ==> downs[j] != downs[k]
    ensures forall down :: PageBelow(twigs, down).Some? ==> down != [] && down in downs
  {
    assert forall k :: 0 <= k < |downs| ==> DownRef(twigs, |twigs|, downs[k], refs[k]);
  }

  lemma {:induction false} DownsOfTwigs(twigs: seq<Twig>, n: nat)
    requires n <= |twigs|
    ensures ListsDowns(twigs, n, DownsInAll(twigs[..n]), PagesInAll(twigs[..n]))
    decreases twigs, 0, n
  {
    if n == 0 {
      assert twigs[..0] == [];
    } else {
      DownsOfTwigs(twigs, n - 1);
      DownsMeetPages(twigs[n - 1].child);
      assert twigs[..n][..n - 1] == twigs[..n - 1];
      OneMoreTwig(twigs, n, DownsInAll(twigs[..n - 1]), PagesInAll(twigs[..n - 1]));
    }
  }

  lemma OneMoreTwig(twigs: seq<Twig>, n: nat, downs: seq<seq<nat>>, refs: seq<PageRef>)
    requires 0 < n <= |twigs| && ListsDowns(twigs, n - 1, downs, refs)
    requires var t := twigs[n - 1].child; var more := DownsIn(t);
      && |more| == |PagesIn(t)|
      && (forall k :: 0 <= k < |more| ==> PageAt(t, more[k]).Some? && PagesIn(t)[k] == Top(PageAt(t, more[k]).value))
      && (forall j, k :: 0 <= j < k < |more| ==> more[j] != more[k])
      && (forall down :: PageAt(t, down).Some? ==> down in more)
    ensures ListsDowns(twigs, n, downs + Below(n - 1, DownsIn(twigs[n - 1].child)), refs + PagesIn(twigs[n - 1].child))
  {
    hide DownsIn, PagesIn;
    var t := twigs[n - 1].child;
    var more, all := DownsIn(t), downs + Below(n - 1, DownsIn(t));
    var below, allRefs := Below(n - 1, more), refs + PagesIn(t);
    forall k | 0 <= k < |all| ensures DownRef(twigs, n, all[k], allRefs[k]) {
      if k < |downs| {
        assert DownRef(twigs, n - 1, downs[k], refs[k]);
      } else {
        assert below[k - |downs|] == [n - 1] + more[k - |downs|] && below[k - |downs|][1..] == more[k - |downs|];
      }
    }
    forall j, k | 0 <= j < k < |all| ensures all[j] != all[k] {
      if j >= |downs| {
        assert below[j - |downs|][1..] == more[j - |downs|] && below[k - |downs|][1..] == more[k - |downs|];
      } else if k >= |downs| {
        assert DownRef(twigs, n - 1, downs[j], refs[j]) && below[k - |downs|][0] == n - 1;
      }
    }
    forall down | down != [] && down[0] < n && PageBelow(twigs, down).Some? ensures down in all {
      if down[0] == n - 1 {
        assert PageAt(t, down[1..]).Some? && down[1..] in more;
        var k :| 0 <= k < |more| && more[k] == down[1..];
        assert below[k] == [n - 1] + down[1..] == down;
        assert all[|downs| + k] == down;
      } else {
        assert down in downs;
      }
    }
  }

  // The paths to the buckets that have pages, in the order of the walk.
  ghost function AtsIn(b: BucketTree): seq<seq<nat>>
    decreases b, 1
  {
    if b.Inline? then [] else [[]] + AtsInAll(b.buckets)
  }

  ghost function AtsInAll(bs: seq<BucketTree>): seq<seq<nat>>
    decreases bs, 0
  {
    if bs == [] then [] else
      var last := |bs| - 1;
      AtsInAll(bs[..last]) + Below(last, AtsIn(bs[last]))
  }

  ghost function RootBelow(bs: seq<BucketTree>, at: seq<nat>): Option<PageTree> {
    if at != [] && at[0] < |bs| then RootAt(bs[at[0]], at[1..]) else None
  }

  ghost predicate ListsAts(bs: seq<BucketTree>, n: nat, ats: seq<seq<nat>>, trees: seq<PageTree>) {
    && |ats| == |trees|
    && (forall k :: 0 <= k < |ats| ==> AtTree(bs, n, ats[k], trees[k]))
    && (forall j, k :: 0 <= j < k < |ats| ==> ats[j] != ats[k])
    && (forall at :: at != [] && at[0] < n && RootBelow(bs, at).Some? ==> at in ats)
  }

  ghost predicate AtTree(bs: seq<BucketTree>, n: nat, at: seq<nat>, t: PageTree) {
    at != [] && at[0] < n && RootBelow(bs, at) == Some(t)
  }

  // The walk meets the buckets by these paths, each bucket once for each path.
  lemma {:induction false} AtsMeetBuckets(b: BucketTree)
    ensures var ats := AtsIn(b);
      && |ats| == |TreesOf(b)|
      && (forall k :: 0 <= k < |ats| ==> RootAt(b, ats[k]) == Some(TreesOf(b)[k]))
      && (forall j, k :: 0 <= j < k < |ats| ==> ats[j] != ats[k])
      && (forall at :: RootAt(b, at).Some? ==> at in ats)
    decreases b, 1, 0
  {
    hide ListsAts, RootBelow;
    if b.Rooted? {
      AtsOfBuckets(b.buckets, |b.buckets|);
      assert b.buckets[..|b.buckets|] == b.buckets;
      ListsAllAts(b, AtsInAll(b.buckets), TreesOfAll(b.buckets));
    }
    forall at | RootAt(b, at).Some? ensures at in AtsIn(b) {
      if at == [] { assert AtsIn(b)[0] == []; } else { assert at in AtsInAll(b.buckets); }
    }
  }

  lemma ListsAllAts(b: BucketTree, ats: seq<seq<nat>>, trees: seq<PageTree>)
    requires b.Rooted? && ListsAts(b.buckets, |b.buckets|, ats, trees)
    ensures |ats| == |trees|
    ensures forall k :: 0 <= k < |ats| ==> ats[k] != [] && RootAt(b, ats[k]) == Some(trees[k])
    ensures forall j, k :: 0 <= j < k < |ats| ==> ats[j] != ats[k]
    ensures forall at :: at != [] && RootAt(b, at).Some? ==> at in ats
  {
    hide RootAt, RootBelow;
    forall k | 0 <= k < |ats| ensures ats[k] != [] && RootAt(b, ats[k]) == Some(trees[k]) {
      assert AtTree(b.buckets, |b.buckets|, ats[k], trees[k]);
      RootIsBelow(b, ats[k]);
    }
    forall at | at != [] && RootAt(b, at).Some? ensures at in ats { RootIsBelow(b, at); }
  }

  lemma RootIsBelow(b: BucketTree, at: seq<nat>)
    requires b.Rooted? && at != []
    ensures RootAt(b, at) == RootBelow(b.buckets, at)
    ensures RootBelow(b.buckets, at).Some? ==> at[0] < |b.buckets|
  {
    assert BucketAt(b, at) == BucketBelow(b.buckets, at);
  }

  lemma {:induction false} AtsOfBuckets(bs: seq<BucketTree>, n: nat)
    requires n <= |bs|
    ensures ListsAts(bs, n, AtsInAll(bs[..n]), TreesOfAll(bs[..n]))
    decreases bs, 0, n
  {
    if n == 0 {
      assert bs[..0] == [];
    } else {
      AtsOfBuckets(bs, n - 1);
      AtsMeetBuckets(bs[n - 1]);
      assert bs[..n][..n - 1] == bs[..n - 1];
      OneMoreBucket(bs, n, AtsInAll(bs[..n - 1]), TreesOfAll(bs[..n - 1]));
    }
  }

  lemma OneMoreBucket(bs: seq<BucketTree>, n: nat, ats: seq<seq<nat>>, trees: seq<PageTree>)
    requires 0 < n <= |bs| && ListsAts(bs, n - 1, ats, trees)
    requires var b := bs[n - 1]; var more := AtsIn(b);
      && |more| == |TreesOf(b)|
      && (forall k :: 0 <= k < |more| ==> RootAt(b, more[k]) == Some(TreesOf(b)[k]))
      && (forall j, k :: 0 <= j < k < |more| ==> more[j] != more[k])
      && (forall at :: RootAt(b, at).Some? ==> at in more)
    ensures ListsAts(bs, n, ats + Below(n - 1, AtsIn(bs[n - 1])), trees + TreesOf(bs[n - 1]))
  {
    hide AtsIn, TreesOf, RootAt;
    var b := bs[n - 1];
    var more, all := AtsIn(b), ats + Below(n - 1, AtsIn(b));
    var below, allTrees := Below(n - 1, more), trees + TreesOf(b);
    forall k | 0 <= k < |all| ensures AtTree(bs, n, all[k], allTrees[k]) {
      if k < |ats| {
        assert AtTree(bs, n - 1, ats[k], trees[k]);
      } else {
        assert below[k - |ats|] == [n - 1] + more[k - |ats|] && below[k - |ats|][1..] == more[k - |ats|];
      }
    }
    forall j, k | 0 <= j < k < |all| ensures all[j] != all[k] {
      if j >= |ats| {
        assert below[j - |ats|][1..] == more[j - |ats|] && below[k - |ats|][1..] == more[k - |ats|];
      } else if k >= |ats| {
        assert AtTree(bs, n - 1, ats[j], trees[j]) && below[k - |ats|][0] == n - 1;
      }
    }
    forall at | at != [] && at[0] < n && RootBelow(bs, at).Some? ensures at in all {
      if at[0] == n - 1 {
        assert RootAt(b, at[1..]).Some? && at[1..] in more;
        var k :| 0 <= k < |more| && more[k] == at[1..];
        assert below[k] == [n - 1] + at[1..] == at;
        assert all[|ats| + k] == at;
      } else {
        assert at in ats;
      }
    }
  }

  // All pages, bucket by bucket.
  ghost function Flat(trees: seq<PageTree>): seq<PageRef> {
    if trees == [] then [] else Flat(trees[..|trees| - 1]) + PagesIn(trees[|trees| - 1])
  }

  lemma {:induction false} FlatConcat(a: seq<PageTree>, b: seq<PageTree>)
    ensures Flat(a + b) == Flat(a) + Flat(b)
  {
    hide PagesIn;
    if b == [] {
      assert a + b == a;
    } else {
      var n, all := |b| - 1, a + b;
      FlatConcat(a, b[..n]);
      assert all[..|all| - 1] == a + b[..n] && all[|all| - 1] == b[n];
      FlatLast(all);
      FlatLast(b);
      assert Flat(a) + Flat(b[..n]) + PagesIn(b[n]) == Flat(a) + (Flat(b[..n]) + PagesIn(b[n]));
    }
  }

  lemma FlatLast(trees: seq<PageTree>)
    requires trees != []
    ensures Flat(trees) == Flat(trees[..|trees| - 1]) + PagesIn(trees[|trees| - 1])
  {
  }

  lemma {:induction false} PagesAreFlat(b: BucketTree)
    ensures PagesOf(b) == Flat(TreesOf(b))
    decreases b, 1
  {
    if b.Rooted? {
      PagesAreFlatAll(b.buckets);
      FlatConcat([b.pages], TreesOfAll(b.buckets));
      assert Flat([b.pages]) == [] + PagesIn(b.pages) by { assert [b.pages][..0] == []; }
    }
  }

  lemma {:induction false} PagesAreFlatAll(bs: seq<BucketTree>)
    ensures PagesOfAll(bs) == Flat(TreesOfAll(bs))
    decreases bs, 0
  {
    if bs != [] {
      var n := |bs| - 1;
      PagesAreFlatAll(bs[..n]);
      PagesAreFlat(bs[n]);
      FlatConcat(TreesOfAll(bs[..n]), TreesOf(bs[n]));
    }
  }

  // The paths to the pages of these buckets.
  ghost function PathsIn(ats: seq<seq<nat>>, trees: seq<PageTree>): seq<Path>
    requires |ats| == |trees|
  {
    if ats == [] then [] else
      var n := |ats| - 1;
      PathsIn(ats[..n], trees[..n]) + Starting(ats[n], DownsIn(trees[n]))
  }

  ghost function Starting(at: seq<nat>, downs: seq<seq<nat>>): (r: seq<Path>)
    ensures |r| == |downs| && forall k :: 0 <= k < |r| ==> r[k] == Path(at, downs[k])
  {
    seq(|downs|, k requires 0 <= k < |downs| => Path(at, downs[k]))
  }

  ghost predicate ListsPaths(ats: seq<seq<nat>>, trees: seq<PageTree>, paths: seq<Path>, refs: seq<PageRef>)
    requires |ats| == |trees|
  {
    && |paths| == |refs|
    && (forall k :: 0 <= k < |paths| ==> PathRef(ats, trees, paths[k], refs[k]))
    && (forall j, k :: 0 <= j < k < |paths| ==> paths[j] != paths[k])
    && (forall i, down :: 0 <= i < |ats| && PageAt(trees[i], down).Some? ==> Path(ats[i], down) in paths)
  }

  ghost predicate PathRef(ats: seq<seq<nat>>, trees: seq<PageTree>, path: Path, p: PageRef)
    requires |ats| == |trees|
  {
    exists i :: 0 <= i < |ats| && ats[i] == path.at && PageAt(trees[i], path.down).Some? && p == Top(PageAt(trees[i], path.down).value)
  }

  lemma {:induction false} PathsMeetPages(ats: seq<seq<nat>>, trees: seq<PageTree>)
    requires |ats| == |trees| && forall j, k :: 0 <= j < k < |ats| ==> ats[j] != ats[k]
    ensures ListsPaths(ats, trees, PathsIn(ats, trees), Flat(trees))
  {
    if ats != [] {
      var n := |ats| - 1;
      PathsMeetPages(ats[..n], trees[..n]);
      DownsMeetPages(trees[n]);
      OneMoreTree(ats, trees, PathsIn(ats[..n], trees[..n]), Flat(trees[..n]));
    }
  }

  lemma OneMoreTree(ats: seq<seq<nat>>, trees: seq<PageTree>, paths: seq<Path>, refs: seq<PageRef>)
    requires |ats| == |trees| > 0 && forall j, k :: 0 <= j < k < |ats| ==> ats[j] != ats[k]
    requires ListsPaths(ats[..|ats| - 1], trees[..|ats| - 1], paths, refs)
    requires var t := trees[|ats| - 1]; var more := DownsIn(t);
      && |more| == |PagesIn(t)|
      && (forall k :: 0 <= k < |more| ==> PageAt(t, more[k]).Some? && PagesIn(t)[k] == Top(PageAt(t, more[k]).value))
      && (forall j, k :: 0 <= j < k < |more| ==> more[j] != more[k])
      && (forall down :: PageAt(t, down).Some? ==> down in more)
    ensures var n := |ats| - 1;
      ListsPaths(ats, trees, paths + Starting(ats[n], DownsIn(trees[n])), refs + PagesIn(trees[n]))
  {
    hide DownsIn, PagesIn, PageAt;
    var n := |ats| - 1;
    var t := trees[n];
    var more, all := DownsIn(t), paths + Starting(ats[n], DownsIn(t));
    var starting, allRefs := Starting(ats[n], more), refs + PagesIn(t);
    forall k | 0 <= k < |all| ensures PathRef(ats, trees, all[k], allRefs[k]) {
      if k < |paths| {
        assert PathRef(ats[..n], trees[..n], paths[k], refs[k]);
        var i :| 0 <= i < n && ats[..n][i] == paths[k].at && PageAt(trees[..n][i], paths[k].down).Some?
          && refs[k] == Top(PageAt(trees[..n][i], paths[k].down).value);
        assert ats[i] == all[k].at && trees[i] == trees[..n][i];
      } else {
        assert all[k] == starting[k - |paths|] == Path(ats[n], more[k - |paths|]);
      }
    }
    forall j, k | 0 <= j < k < |all| ensures all[j] != all[k] {
      if j >= |paths| {
        assert all[j] == starting[j - |paths|] && all[k] == starting[k - |paths|];
      } else if k >= |paths| {
        assert PathRef(ats[..n], trees[..n], paths[j], refs[j]) && all[k] == starting[k - |paths|];
      }
    }
    forall i, down | 0 <= i < |ats| && PageAt(trees[i], down).Some? ensures Path(ats[i], down) in all {
      if i == n {
        assert down in more;
        var k :| 0 <= k < |more| && more[k] == down;
        assert all[|paths| + k] == starting[k] == Path(ats[n], down);
      } else {
        assert ats[..n][i] == ats[i] && trees[..n][i] == trees[i];
        assert Path(ats[..n][i], down) in paths;
      }
    }
  }

  // The walk of the whole database: its pages are those at the end of the paths, one for each path.
  lemma {:induction false} PagesByPath(root: BucketTree) returns (paths: seq<Path>)
    ensures |paths| == |PagesOf(root)|
    ensures forall k :: 0 <= k < |paths| ==> Reached(root, paths[k]).Some? && PagesOf(root)[k] == Top(Reached(root, paths[k]).value)
    ensures forall j, k :: 0 <= j < k < |paths| ==> paths[j] != paths[k]
    ensures forall path :: Reached(root, path).Some? ==> path in paths
  {
    hide AtsIn, TreesOf, PagesOf, RootAt, PageAt, PathsIn, Flat;
    AtsMeetBuckets(root);
    PagesAreFlat(root);
    var ats, trees := AtsIn(root), TreesOf(root);
    PathsMeetPages(ats, trees);
    paths := PathsIn(ats, trees);
    forall k | 0 <= k < |paths| ensures Reached(root, paths[k]).Some? && PagesOf(root)[k] == Top(Reached(root, paths[k]).value) {
      assert PathRef(ats, trees, paths[k], Flat(trees)[k]);
    }
    forall path | Reached(root, path).Some? ensures path in paths {
      assert path.at in ats;
      var i :| 0 <= i < |ats| && ats[i] == path.at;
      assert Path(ats[i], path.down) in paths;
    }
  }

  // And its buckets, one for each path.
  lemma {:induction false} BucketsByPath(root: BucketTree) returns (ats: seq<seq<nat>>)
    ensures |ats| == |TreesOf(root)|
    ensures forall k :: 0 <= k < |ats| ==> RootAt(root, ats[k]) == Some(TreesOf(root)[k])
    ensures forall j, k :: 0 <= j < k < |ats| ==> ats[j] != ats[k]
    ensures forall at :: RootAt(root, at).Some? ==> at in ats
  {
    AtsMeetBuckets(root);
    ats := AtsIn(root);
  }

  // ---- What the key order sees ----

  ghost function SubtreeAt(t: Trees.Tree, down: seq<nat>): Option<Trees.Tree>
    decreases |down|
  {
    if down == [] then Some(t)
    else if t.Branch? && down[0] < |t.elems| then SubtreeAt(t.elems[down[0]].child, down[1..])
    else None
  }

  // The recursion over the keys sees at each path the keys of the page there.
  lemma {:induction false} KeysByPath(t: PageTree, down: seq<nat>)
    ensures PageAt(t, down).Some? <==> SubtreeAt(TreeOf(t), down).Some?
    ensures PageAt(t, down).Some? ==>
      var page, u := PageAt(t, down).value, SubtreeAt(TreeOf(t), down).value;
      && (page.LeafPage? ==> u == Trees.Leaf(page.items))
      && (page.OtherPage? ==> u == Trees.Leaf([]))
      && (page.BranchPage? ==> u.Branch? && |u.elems| == |page.twigs| && forall i :: 0 <= i < |u.elems| ==> u.elems[i].key == page.twigs[i].key)
    decreases |down|
  {
    if down != [] && t.BranchPage? && down[0] < |t.twigs| {
      KeysByPath(t.twigs[down[0]].child, down[1..]);
    }
  }

  lemma {:induction false} OtherByPath(t: PageTree)
    ensures HasOther(t) <==> exists down :: PageAt(t, down).Some? && PageAt(t, down).value.OtherPage?
  {
    if HasOther(t) {
      var down := PathToOther(t);
    } else {
      forall down | PageAt(t, down).Some? ensures !PageAt(t, down).value.OtherPage? { NoOtherAt(t, down); }
    }
  }

  lemma {:induction false} PathToOther(t: PageTree) returns (down: seq<nat>)
    requires HasOther(t)
    ensures PageAt(t, down).Some? && PageAt(t, down).value.OtherPage?
  {
    down := [];
    if t.BranchPage? {
      var i: nat :| i < |t.twigs| && HasOther(t.twigs[i].child);
      down := PathToOther(t.twigs[i].child);
      assert ([i] + down)[1..] == down;
      down := [i] + down;
    }
  }

  lemma {:induction false} NoOtherAt(t: PageTree, down: seq<nat>)
    requires !HasOther(t) && PageAt(t, down).Some?
    ensures !PageAt(t, down).value.OtherPage?
    decreases |down|
  {
    if down != [] { NoOtherAt(t.twigs[down[0]].child, down[1..]); }
  }
}
