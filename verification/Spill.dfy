// spill of environment/bbolt/node.go over the node cache of a bucket: a cached node gives way to the
// pages that its inodes are split over, and its parent refers to them by their first keys.
module Spill {
  import opened Bounds
  import opened Inodes
  import opened Keys
  import opened Levels
  import opened Nodes
  import opened Options
  import opened PageIds
  import opened Rebalance

  // What the parent gets for the pieces of a node.
  ghost function Refer(pieces: seq<seq<Inode>>, ids: seq<Pgid>): (inodes: seq<Inode>)
    requires |pieces| == |ids|
    ensures |inodes| == |ids|
  {
    seq(|ids|, i requires 0 <= i < |ids| => Inode(0, ids[i], FirstKey(pieces[i]), []))
  }

  // The pages with the pieces written to new ones.
  ghost function Written(pages: map<Pgid, Page>, isLeaf: bool, pieces: seq<seq<Inode>>, ids: seq<Pgid>): map<Pgid, Page>
    requires |pieces| == |ids|
  {
    if ids == [] then pages else
      var k := |ids| - 1;
      Written(pages, isLeaf, pieces[..k], ids[..k])[ids[k] := Page(isLeaf, pieces[k])]
  }

  ghost predicate Adds(pages: map<Pgid, Page>, after: map<Pgid, Page>, isLeaf: bool, pieces: seq<seq<Inode>>, ids: seq<Pgid>)
    requires |pieces| == |ids|
  {
    && (forall q :: q in after <==> q in pages || q in ids)
    && (forall q :: q in pages && q !in ids ==> after[q] == pages[q])
    && (forall i :: 0 <= i < |ids| ==> ids[i] in after && after[ids[i]] == Page(isLeaf, pieces[i]))
  }

  lemma {:induction false} WrittenIs(pages: map<Pgid, Page>, isLeaf: bool, pieces: seq<seq<Inode>>, ids: seq<Pgid>)
    requires |pieces| == |ids| && Distinct(ids)
    ensures Adds(pages, Written(pages, isLeaf, pieces, ids), isLeaf, pieces, ids)
  {
    hide Adds, Distinct;
    if ids == [] {
      AddsNothing(pages, isLeaf, pieces, ids);
    } else {
      var k := |ids| - 1;
      LastIsNew(ids);
      WrittenIs(pages, isLeaf, pieces[..k], ids[..k]);
      AddsOne(pages, Written(pages, isLeaf, pieces[..k], ids[..k]), isLeaf, pieces, ids);
    }
  }

  lemma AddsNothing(pages: map<Pgid, Page>, isLeaf: bool, pieces: seq<seq<Inode>>, ids: seq<Pgid>)
    requires |pieces| == |ids| == 0
    ensures Adds(pages, pages, isLeaf, pieces, ids)
  {
  }

  lemma LastIsNew(ids: seq<Pgid>)
    requires Distinct(ids) && ids != []
    ensures Distinct(ids[..|ids| - 1]) && ids[|ids| - 1] !in ids[..|ids| - 1]
  {
  }

  lemma AddsOne(pages: map<Pgid, Page>, before: map<Pgid, Page>, isLeaf: bool, pieces: seq<seq<Inode>>, ids: seq<Pgid>)
    requires |pieces| == |ids| > 0 && ids[|ids| - 1] !in ids[..|ids| - 1]
    requires Adds(pages, before, isLeaf, pieces[..|ids| - 1], ids[..|ids| - 1])
    ensures Adds(pages, before[ids[|ids| - 1] := Page(isLeaf, pieces[|ids| - 1])], isLeaf, pieces, ids)
  {
    var k := |ids| - 1;
    assert ids == ids[..k] + [ids[k]];
    assert forall i :: 0 <= i < k ==> ids[..k][i] == ids[i] && pieces[..k][i] == pieces[i] && ids[i] in ids[..k];
  }

  // The store after a node has been spilled into its parent.
  ghost function Spilled(s: Store, p: Pgid, n: Pgid, j: nat, pieces: seq<seq<Inode>>, ids: seq<Pgid>): Store
    requires p in s.nodes && |pieces| == |ids| && j < |s.Inodes(p)|
  {
    Store(Written(s.pages, s.IsLeaf(n), pieces, ids),
          s.nodes[p := s.nodes[p].(inodes := Rewire(p, j, j + 1, Refer(pieces, ids)).Result(s))] - {n})
  }

  // A partition of the inodes of a node, as split makes it, and an unused page for each piece.
  ghost predicate Partition(inodes: seq<Inode>, isLeaf: bool, pieces: seq<seq<Inode>>) {
    && Joined(pieces) == inodes && pieces != []
    && forall i :: 0 <= i < |pieces| ==> |pieces[i]| >= if isLeaf then 1 else 2
  }

  ghost predicate Unused(s: Store, ids: seq<Pgid>) {
    Distinct(ids) && forall q :: q in ids ==> q != 0 && q !in s.pages && q !in s.nodes
  }

  // A cached node whose kids are all on pages, and its place in its parent.
  ghost predicate Bottom(s: Store, root: Pgid, h: nat, weak: Option<Pgid>, p: Pgid, n: Pgid, j: nat) {
    && Sound(s, root, h, weak) && n in s.nodes && n != root && n != p && weak != Some(n)
    && p in TreeIds(s, [root], h) && p in s.nodes && !s.IsLeaf(p)
    && j < |s.Inodes(p)| && s.Inodes(p)[j].pgid == n && s.Inodes(p)[j].key == s.nodes[n].key
    && (!s.IsLeaf(n) ==> forall c :: c in KidsOf(s, n) ==> c !in s.nodes)
  }

  // How the store looks then.
  ghost predicate SpillLooks(s: Store, t: Store, p: Pgid, n: Pgid, j: nat, pieces: seq<seq<Inode>>, ids: seq<Pgid>)
    requires |pieces| == |ids| && j < |s.Inodes(p)|
  {
    && t.Inodes(p) == Rewire(p, j, j + 1, Refer(pieces, ids)).Result(s) && !t.IsLeaf(p) && t.KeyOf(p) == s.KeyOf(p)
    && (forall i :: 0 <= i < |ids| ==> PieceAt(t, ids[i], s.IsLeaf(n), pieces[i]))
    && (forall q :: q != p && q != n && q !in ids ==>
      t.Inodes(q) == s.Inodes(q) && t.IsLeaf(q) == s.IsLeaf(q) && t.KeyOf(q) == s.KeyOf(q))
    && t.nodes.Keys == s.nodes.Keys - {n}
    && (forall q :: q in t.nodes ==> t.nodes[q].parent == s.nodes[q].parent && t.nodes[q].unbalanced == s.nodes[q].unbalanced)
    && (forall q :: q in s.pages ==> q in t.pages && t.pages[q] == s.pages[q])
  }

  ghost predicate PieceAt(t: Store, id: Pgid, isLeaf: bool, piece: seq<Inode>) {
    t.Inodes(id) == piece && t.IsLeaf(id) == isLeaf && t.KeyOf(id) == FirstKey(piece) && id !in t.nodes && id in t.pages
  }

  lemma {:induction false} SpilledLooks(s: Store, p: Pgid, n: Pgid, j: nat, pieces: seq<seq<Inode>>, ids: seq<Pgid>)
    requires p in s.nodes && n in s.nodes && n != p && |pieces| == |ids| && j < |s.Inodes(p)| && !s.IsLeaf(p) && Unused(s, ids)
    ensures SpillLooks(s, Spilled(s, p, n, j, pieces, ids), p, n, j, pieces, ids)
  {
    hide Refer, Distinct, Written, Rewire.Result;
    WrittenIs(s.pages, s.IsLeaf(n), pieces, ids);
    var t := Spilled(s, p, n, j, pieces, ids);
    forall i | 0 <= i < |ids| ensures PieceAt(t, ids[i], s.IsLeaf(n), pieces[i]) {
      assert ids[i] in ids;
    }
  }

  lemma {:induction false} EntriesOfPieces(t: Store, isLeaf: bool, pieces: seq<seq<Inode>>, ids: seq<Pgid>)
    requires |pieces| == |ids| && forall i :: 0 <= i < |ids| ==> PieceAt(t, ids[i], isLeaf, pieces[i])
    ensures Entries(t, ids) == Joined(pieces)
    decreases |ids|
  {
    if ids != [] {
      assert PieceAt(t, ids[0], isLeaf, pieces[0]);
      forall i | 0 <= i < |ids[1..]| ensures PieceAt(t, ids[1..][i], isLeaf, pieces[1..][i]) {
        assert PieceAt(t, ids[i + 1], isLeaf, pieces[i + 1]);
      }
      EntriesOfPieces(t, isLeaf, pieces[1..], ids[1..]);
    }
  }

  // Where a piece lies in the whole.
  ghost function Start(pieces: seq<seq<Inode>>, i: nat): nat
    requires i <= |pieces|
  {
    |Joined(pieces[..i])|
  }

  lemma {:induction false} JoinedConcat(a: seq<seq<Inode>>, b: seq<seq<Inode>>)
    ensures Joined(a + b) == Joined(a) + Joined(b)
  {
    if a == [] {
      assert a + b == b;
    } else {
      JoinedConcat(a[1..], b);
      assert (a + b)[1..] == a[1..] + b;
    }
  }

  lemma {:induction false} PieceIsSlice(pieces: seq<seq<Inode>>, i: nat)
    requires i < |pieces|
    ensures Start(pieces, i + 1) == Start(pieces, i) + |pieces[i]| <= |Joined(pieces)|
    ensures Joined(pieces)[Start(pieces, i)..Start(pieces, i + 1)] == pieces[i]
    ensures Start(pieces, 0) == 0 && Start(pieces, |pieces|) == |Joined(pieces)|
  {
    hide Joined;
    assert pieces == pieces[..i] + [pieces[i]] + pieces[i + 1..];
    assert pieces[..i + 1] == pieces[..i] + [pieces[i]] && pieces[..0] == [] && pieces[..|pieces|] == pieces;
    JoinedConcat(pieces[..i] + [pieces[i]], pieces[i + 1..]);
    JoinedConcat(pieces[..i], [pieces[i]]);
    JoinedOfOne(pieces[i]);
  }

  lemma JoinedOfOne(piece: seq<Inode>)
    ensures Joined([piece]) == piece && Joined([]) == []
  {
    assert [piece][1..] == [];
  }

  // The first keys of the pieces are keys of the whole, in order.
  lemma {:induction false} FirstAt(pieces: seq<seq<Inode>>, i: nat)
    requires i < |pieces| && pieces[i] != []
    ensures Start(pieces, i) < |Joined(pieces)| && FirstKey(pieces[i]) == Joined(pieces)[Start(pieces, i)].key
  {
    PieceIsSlice(pieces, i);
    assert Joined(pieces)[Start(pieces, i)..Start(pieces, i + 1)][0] == pieces[i][0];
  }

  lemma {:induction false} StartsRise(pieces: seq<seq<Inode>>, i: nat, j: nat)
    requires i < j <= |pieces| && forall k :: 0 <= k < |pieces| ==> pieces[k] != []
    ensures Start(pieces, i) < Start(pieces, j)
    decreases j
  {
    PieceIsSlice(pieces, j - 1);
    if i < j - 1 { StartsRise(pieces, i, j - 1); }
  }

  lemma {:induction false} FirstsAscend(pieces: seq<seq<Inode>>, ids: seq<Pgid>)
    requires |pieces| == |ids| && Ascending(InodeKeys(Joined(pieces))) && forall k :: 0 <= k < |pieces| ==> pieces[k] != []
    ensures Ascending(InodeKeys(Refer(pieces, ids)))
  {
    hide Less, Joined;
    var with := Refer(pieces, ids);
    forall i, j | 0 <= i < j < |with| ensures Less(InodeKeys(with)[i], InodeKeys(with)[j]) {
      FirstAt(pieces, i);
      FirstAt(pieces, j);
      StartsRise(pieces, i, j);
      KeyAt(Joined(pieces), Start(pieces, i), Start(pieces, j));
    }
  }

  // No page of the tree is unused.
  lemma {:induction false} UnusedIsOutside(s: Store, root: Pgid, h: nat, weak: Option<Pgid>, q: Pgid)
    requires Sound(s, root, h, weak) && !s.IsLeaf(root) && q !in s.pages && q !in s.nodes
    ensures q !in TreeIds(s, [root], h)
  {
    assert q in TreeIds(s, [root], h) ==> StockedAt(s, root, weak, TreeIds(s, [root], h), q);
  }

  lemma {:induction false} RootIsBranch(s: Store, root: Pgid, h: nat, weak: Option<Pgid>, p: Pgid)
    requires Sound(s, root, h, weak) && p in TreeIds(s, [root], h) && !s.IsLeaf(p)
    ensures !s.IsLeaf(root)
  {
    hide Bounded, LinkedUp, Stocked;
    assert root in [root];
  }

  lemma {:induction false} SpillRewires(s: Store, t: Store, root: Pgid, h: nat, weak: Option<Pgid>, p: Pgid, n: Pgid, j: nat,
      pieces: seq<seq<Inode>>, ids: seq<Pgid>)
    requires Bottom(s, root, h, weak, p, n, j) && Partition(s.Inodes(n), s.IsLeaf(n), pieces) && |pieces| == |ids|
    requires Unused(s, ids) && SpillLooks(s, t, p, n, j, pieces, ids)
    ensures Rewires(s, t, Rewire(p, j, j + 1, Refer(pieces, ids)))
    ensures KidsFit(s, TreeIds(s, [root], h), Rewire(p, j, j + 1, Refer(pieces, ids)))
  {
    hide Bounded, LinkedUp, Stocked, Layered, TreeIds, Distinct, Entries, Joined, Refer;
    var r, inodes := Rewire(p, j, j + 1, Refer(pieces, ids)), s.Inodes(p);
    assert r.Block(s) == [inodes[j]] && Pgids(r.Block(s)) == [n];
    ReferIds(pieces, ids);
    EntriesOfOne(s, n);
    EntriesOfPieces(t, s.IsLeaf(n), pieces, ids);
    RootIsBranch(s, root, h, weak, p);
    forall q | q in ids ensures q !in TreeIds(s, [root], h) { UnusedIsOutside(s, root, h, weak, q); }
    assert KidsOf(s, p)[j] == n;
    forall q, k | q in ids && k in KidsOf(s, p) ensures t.IsLeaf(q) == s.IsLeaf(k) {
      SiblingsAlike(s, [root], h, p, k, n);
      var i :| 0 <= i < |ids| && ids[i] == q;
      assert PieceAt(t, ids[i], s.IsLeaf(n), pieces[i]);
    }
  }

  lemma ReferIds(pieces: seq<seq<Inode>>, ids: seq<Pgid>)
    requires |pieces| == |ids|
    ensures Pgids(Refer(pieces, ids)) == ids
  {
  }

  // Everything under the node, but not the node, stays as it is.
  lemma {:induction false} SpillUnder(s: Store, t: Store, root: Pgid, h: nat, weak: Option<Pgid>, p: Pgid, n: Pgid, j: nat,
      pieces: seq<seq<Inode>>, ids: seq<Pgid>, h': nat)
    requires Bottom(s, root, h, weak, p, n, j) && |pieces| == |ids| && SpillLooks(s, t, p, n, j, pieces, ids)
    requires Whole(s, [p], h') && h' > 0 && Covers(TreeIds(s, [root], h), TreeIds(s, [p], h')) && Unused(s, ids)
    ensures Whole(s, [n], h' - 1) && AgreeUnder(s, t, n, h' - 1)
  {
    hide Bounded, LinkedUp, Stocked, Layered, TreeIds, Distinct, Entries, Refer, Apart;
    var g := h' - 1;
    assert KidsOf(s, p)[j] == n;
    KidSubtrees(s, p, h', j);
    RootIsBranch(s, root, h, weak, p);
    forall q | q in TreeIds(s, [n], g) && q != n ensures s.Inodes(q) == t.Inodes(q) && s.IsLeaf(q) == t.IsLeaf(q) {
      assert Inside(s, n, g, p, h');
      if q in ids { UnusedIsOutside(s, root, h, weak, q); }
    }
  }

  // The page of a piece, within the bounds that its reference gives it.
  lemma {:induction false} PieceBounded(s: Store, t: Store, root: Pgid, h: nat, weak: Option<Pgid>, p: Pgid, n: Pgid, j: nat,
      pieces: seq<seq<Inode>>, ids: seq<Pgid>, h': nat, lo: Option<Key>, hi: Option<Key>, i: nat)
    requires Bottom(s, root, h, weak, p, n, j) && Partition(s.Inodes(n), s.IsLeaf(n), pieces) && |pieces| == |ids|
    requires Unused(s, ids) && SpillLooks(s, t, p, n, j, pieces, ids)
    requires Whole(s, [p], h') && h' > 0 && Covers(TreeIds(s, [root], h), TreeIds(s, [p], h')) && Bounded(s, p, h', lo, hi)
    requires i < |ids|
    ensures KidBounded(t, Rewire(p, j, j + 1, Refer(pieces, ids)).Result(s), j + i, h', lo, hi)
  {
    hide Bounded, Sound, Whole, Layered, TreeIds, Distinct, Entries, Joined, Less, Ascending, KidBounded, SpillLooks, Unused, Covers;
    var inodes, all := s.Inodes(p), s.Inodes(n);
    var result := Rewire(p, j, j + 1, Refer(pieces, ids)).Result(s);
    SpillUnder(s, t, root, h, weak, p, n, j, pieces, ids, h');
    BoundedParts(s, p, h', lo, hi);
    assert KidBounded(s, inodes, j, h', lo, hi);
    KidIsBounded(s, inodes, j, h', lo, hi);
    var lo', hi' := LowerAt(inodes, j, lo), UpperAt(inodes, j, hi);
    var u, v := Start(pieces, i), Start(pieces, i + 1);
    PieceIsSlice(pieces, i);
    FirstAt(pieces, i);
    LooksAt(s, t, p, n, j, pieces, ids, i);
    SliceBounded(s, t, n, ids[i], h' - 1, lo', hi', u, v);
    if i + 1 < |ids| { FirstAt(pieces, i + 1); }
    StartsRise(pieces, i, i + 1);
    if i > 0 { StartsRise(pieces, 0, i); }
    PieceIsSlice(pieces, 0);
    if i + 1 < |ids| { StartsRise(pieces, i + 1, |ids|); }
    ResultAt(s, p, j, pieces, ids, i);
    KidFromBounded(t, result, j + i, h', lo, hi);
  }

  lemma LooksAt(s: Store, t: Store, p: Pgid, n: Pgid, j: nat, pieces: seq<seq<Inode>>, ids: seq<Pgid>, i: nat)
    requires |pieces| == |ids| && j < |s.Inodes(p)| && SpillLooks(s, t, p, n, j, pieces, ids) && i < |ids|
    ensures PieceAt(t, ids[i], s.IsLeaf(n), pieces[i])
  {
  }

  lemma ResultAt(s: Store, p: Pgid, j: nat, pieces: seq<seq<Inode>>, ids: seq<Pgid>, i: nat)
    requires |pieces| == |ids| && j < |s.Inodes(p)| && i < |ids|
    ensures var result := Rewire(p, j, j + 1, Refer(pieces, ids)).Result(s);
      && |result| == |s.Inodes(p)| - 1 + |ids|
      && result[j + i].key == FirstKey(pieces[i]) && result[j + i].pgid == ids[i]
      && (i + 1 < |ids| ==> result[j + i + 1].key == FirstKey(pieces[i + 1]))
      && (i + 1 == |ids| && j + 1 < |s.Inodes(p)| ==> result[j + i + 1] == s.Inodes(p)[j + 1])
  {
  }

  // All that is needed to spill a node.
  ghost predicate Spills(s: Store, t: Store, root: Pgid, h: nat, weak: Option<Pgid>, p: Pgid, n: Pgid, j: nat,
      pieces: seq<seq<Inode>>, ids: seq<Pgid>)
  {
    && Bottom(s, root, h, weak, p, n, j) && |pieces| == |ids| && Partition(s.Inodes(n), s.IsLeaf(n), pieces)
    && Unused(s, ids) && SpillLooks(s, t, p, n, j, pieces, ids)
  }

  // The first keys of the pieces lie where the key of the node did.
  lemma FirstsBound(inodes: seq<Inode>, j: nat, all: seq<Inode>, pieces: seq<seq<Inode>>, ids: seq<Pgid>, isLeaf: bool,
      lo: Option<Key>, hi: Option<Key>)
    requires j < |inodes| && Partition(all, isLeaf, pieces) && |pieces| == |ids|
    requires KeysWithin(all, LowerAt(inodes, j, lo), UpperAt(inodes, j, hi))
    ensures forall e :: e in Refer(pieces, ids) ==>
      && e.key != [] && (j > 0 || lo.Some? ==> AtMost(inodes[j].key, e.key))
      && Beneath(e.key, if inodes[j + 1..] != [] then Some(inodes[j + 1..][0].key) else hi)
  {
    hide Joined, Less, Ascending;
    var with := Refer(pieces, ids);
    forall e | e in with
      ensures e.key != [] && (j > 0 || lo.Some? ==> AtMost(inodes[j].key, e.key))
      ensures Beneath(e.key, if inodes[j + 1..] != [] then Some(inodes[j + 1..][0].key) else hi)
    {
      var i :| 0 <= i < |with| && with[i] == e;
      FirstAt(pieces, i);
      assert all[Start(pieces, i)] in all;
    }
  }

  lemma {:induction false} SpillFits(s: Store, t: Store, root: Pgid, h: nat, weak: Option<Pgid>, p: Pgid, n: Pgid, j: nat,
      pieces: seq<seq<Inode>>, ids: seq<Pgid>, h': nat, lo: Option<Key>, hi: Option<Key>)
    requires Spills(s, t, root, h, weak, p, n, j, pieces, ids)
    requires Whole(s, [p], h') && Covers(TreeIds(s, [root], h), TreeIds(s, [p], h')) && Bounded(s, p, h', lo, hi)
    ensures h' > 0 && Fits(s, t, Rewire(p, j, j + 1, Refer(pieces, ids)), h', lo, hi)
  {
    hide Bounded, Sound, Whole, Entries, Joined, Less, AtMost, Ascending, KidBounded, SpillLooks, Unused, Covers;
    var r, inodes, all := Rewire(p, j, j + 1, Refer(pieces, ids)), s.Inodes(p), s.Inodes(n);
    BranchHeight(s, p, h');
    BoundedParts(s, p, h', lo, hi);
    assert KidBounded(s, inodes, j, h', lo, hi);
    KidIsBounded(s, inodes, j, h', lo, hi);
    BoundedParts(s, n, h' - 1, LowerAt(inodes, j, lo), UpperAt(inodes, j, hi));
    FirstsAscend(pieces, ids);
    FirstsBound(inodes, j, all, pieces, ids, s.IsLeaf(n), lo, hi);
    forall k | j <= k < j + |r.with| ensures KidBounded(t, r.Result(s), k, h', lo, hi) {
      PieceBounded(s, t, root, h, weak, p, n, j, pieces, ids, h', lo, hi, k - j);
    }
  }

  lemma {:induction false} SpillBounded(s: Store, t: Store, root: Pgid, h: nat, weak: Option<Pgid>, p: Pgid, n: Pgid, j: nat,
      pieces: seq<seq<Inode>>, ids: seq<Pgid>)
    requires Spills(s, t, root, h, weak, p, n, j, pieces, ids)
    ensures Bounded(t, root, h, None, None)
  {
    hide Bounded, Whole, LinkedUp, Stocked, SpillLooks, Rewires, KidsFit, Covers, Partition, Unused, Refer, TreeIds;
    var r, all := Rewire(p, j, j + 1, Refer(pieces, ids)), TreeIds(s, [root], h);
    SpillRewires(s, t, root, h, weak, p, n, j, pieces, ids);
    forall h', lo, hi | Whole(s, [p], h') && Covers(all, TreeIds(s, [p], h')) && Bounded(s, p, h', lo, hi)
      ensures Bounded(t, p, h', lo, hi)
    {
      SpillFits(s, t, root, h, weak, p, n, j, pieces, ids, h', lo, hi);
      RewiredBounded(s, t, r, all, h', lo, hi);
    }
    CoversItself(all);
    RewireBounded(s, t, root, h, None, None, r, all);
  }

  lemma LooksElsewhere(s: Store, t: Store, p: Pgid, n: Pgid, j: nat, pieces: seq<seq<Inode>>, ids: seq<Pgid>, q: Pgid)
    requires |pieces| == |ids| && j < |s.Inodes(p)| && SpillLooks(s, t, p, n, j, pieces, ids)
    requires q != n && q !in ids
    ensures q != p ==> t.Inodes(q) == s.Inodes(q) && t.IsLeaf(q) == s.IsLeaf(q)
    ensures t.KeyOf(q) == s.KeyOf(q)
    ensures q in t.nodes <==> q in s.nodes
    ensures q in t.nodes ==> t.nodes[q].parent == s.nodes[q].parent && t.nodes[q].unbalanced == s.nodes[q].unbalanced
  {
  }

  // A kid other than the spilled node is as it was.
  lemma {:induction false} KidElsewhere(s: Store, t: Store, root: Pgid, h: nat, weak: Option<Pgid>, p: Pgid, n: Pgid, j: nat,
      pieces: seq<seq<Inode>>, ids: seq<Pgid>, q: Pgid, i: nat)
    requires Spills(s, t, root, h, weak, p, n, j, pieces, ids)
    requires q in TreeIds(s, [root], h) && !s.IsLeaf(q) && i < |s.Inodes(q)| && (q == p ==> i != j)
    ensures var e := s.Inodes(q)[i];
      && t.KeyOf(e.pgid) == e.key && e.pgid != n && (e.pgid in t.nodes <==> e.pgid in s.nodes)
      && (e.pgid in t.nodes ==> q in s.nodes && t.nodes[e.pgid].parent == Some(q))
  {
    hide Bounded, LinkedUp, Stocked, Layered, TreeIds, Distinct, Refer, SpillLooks, Partition;
    var c := s.Inodes(q)[i].pgid;
    assert KidsOf(s, q)[i] == c && KidsOf(s, p)[j] == n;
    LinkAt(s, root, h, weak, q, i);
    RootIsBranch(s, root, h, weak, p);
    KidInTree(s, [root], h, q, c);
    if c in ids { UnusedIsOutside(s, root, h, weak, c); }
    if c == n {
      OneParent(s, [root], h, q, p, n);
      KidsDiffer(s, [root], h, p);
      DistinctAt(KidsOf(s, p), i, j);
    }
    LooksElsewhere(s, t, p, n, j, pieces, ids, c);
  }

  // The links of the branches of the new tree: the parent, a piece, or any other.
  lemma PieceLinked(s: Store, t: Store, p: Pgid, n: Pgid, j: nat, pieces: seq<seq<Inode>>, ids: seq<Pgid>, i: nat)
    requires |pieces| == |ids| && j < |s.Inodes(p)| && SpillLooks(s, t, p, n, j, pieces, ids) && j <= i < j + |ids|
    ensures i < |t.Inodes(p)| && Link(t, p, i)
  {
    LooksAt(s, t, p, n, j, pieces, ids, i - j);
    ResultAt(s, p, j, pieces, ids, i - j);
  }

  lemma {:induction false} ParentLinks(s: Store, t: Store, root: Pgid, h: nat, weak: Option<Pgid>, p: Pgid, n: Pgid, j: nat,
      pieces: seq<seq<Inode>>, ids: seq<Pgid>, i: nat)
    requires Spills(s, t, root, h, weak, p, n, j, pieces, ids) && i < |t.Inodes(p)|
    ensures Link(t, p, i)
  {
    hide Sound, Partition, Unused, PieceAt;
    if i < j {
      KidElsewhere(s, t, root, h, weak, p, n, j, pieces, ids, p, i);
    } else if i < j + |ids| {
      PieceLinked(s, t, p, n, j, pieces, ids, i);
    } else {
      KidElsewhere(s, t, root, h, weak, p, n, j, pieces, ids, p, i - |ids| + 1);
    }
  }

  lemma SliceAt(inodes: seq<Inode>, lo: nat, hi: nat, i: nat)
    requires lo <= lo + i < hi <= |inodes|
    ensures inodes[lo..hi][i] == inodes[lo + i]
  {
  }

  lemma {:induction false} PieceLinks(s: Store, t: Store, root: Pgid, h: nat, weak: Option<Pgid>, p: Pgid, n: Pgid, j: nat,
      pieces: seq<seq<Inode>>, ids: seq<Pgid>, k: nat, i: nat)
    requires Spills(s, t, root, h, weak, p, n, j, pieces, ids) && k < |ids|
    requires !s.IsLeaf(n) && i < |t.Inodes(ids[k])| && n in TreeIds(s, [root], h)
    ensures Link(t, ids[k], i)
  {
    hide Sound, Unused, SpillLooks, Joined, TreeIds, Start;
    LooksAt(s, t, p, n, j, pieces, ids, k);
    PieceIsSlice(pieces, k);
    var m := Start(pieces, k) + i;
    SliceAt(s.Inodes(n), Start(pieces, k), Start(pieces, k + 1), i);
    assert KidsOf(s, n)[m] == s.Inodes(n)[m].pgid;
    KidElsewhere(s, t, root, h, weak, p, n, j, pieces, ids, n, m);
  }

  lemma {:induction false} SpillLinks(s: Store, t: Store, root: Pgid, h: nat, weak: Option<Pgid>, p: Pgid, n: Pgid, j: nat,
      pieces: seq<seq<Inode>>, ids: seq<Pgid>, q: Pgid, i: nat)
    requires Spills(s, t, root, h, weak, p, n, j, pieces, ids)
    requires (q in TreeIds(s, [root], h) && q != n) || q in ids
    requires !t.IsLeaf(q) && i < |t.Inodes(q)|
    ensures Link(t, q, i)
  {
    hide Bounded, LinkedUp, Stocked, Whole, TreeIds, Entries, Refer, SpillLooks, Partition, Link;
    if q in ids {
      var k :| 0 <= k < |ids| && ids[k] == q;
      LooksAt(s, t, p, n, j, pieces, ids, k);
      InTree(s, root, h, weak, n);
      PieceLinks(s, t, root, h, weak, p, n, j, pieces, ids, k, i);
    } else if q == p {
      ParentLinks(s, t, root, h, weak, p, n, j, pieces, ids, i);
    } else {
      OtherLinks(s, t, root, h, weak, p, n, j, pieces, ids, q, i);
    }
  }

  lemma {:induction false} OtherLinks(s: Store, t: Store, root: Pgid, h: nat, weak: Option<Pgid>, p: Pgid, n: Pgid, j: nat,
      pieces: seq<seq<Inode>>, ids: seq<Pgid>, q: Pgid, i: nat)
    requires Spills(s, t, root, h, weak, p, n, j, pieces, ids)
    requires q in TreeIds(s, [root], h) && q != n && q != p && q !in ids && !t.IsLeaf(q) && i < |t.Inodes(q)|
    ensures Link(t, q, i)
  {
    hide Sound, Unused, SpillLooks, Partition;
    LooksElsewhere(s, t, p, n, j, pieces, ids, q);
    KidElsewhere(s, t, root, h, weak, p, n, j, pieces, ids, q, i);
  }

  // The stock of the nodes of the new tree.
  lemma {:induction false} PieceStocks(s: Store, t: Store, root: Pgid, h: nat, weak: Option<Pgid>, p: Pgid, n: Pgid, j: nat,
      pieces: seq<seq<Inode>>, ids: seq<Pgid>, now: seq<Pgid>, k: nat)
    requires Spills(s, t, root, h, weak, p, n, j, pieces, ids) && k < |ids| && 0 !in now
    ensures StockedAt(t, root, weak, now, ids[k])
  {
    hide Bounded, LinkedUp, Whole, TreeIds, Entries, Refer, SpillLooks, Joined;
    LooksAt(s, t, p, n, j, pieces, ids, k);
    InTree(s, root, h, weak, n);
    assert StockedAt(s, root, weak, TreeIds(s, [root], h), n) && ids[k] in ids;
    if s.IsLeaf(n) {
      PieceIsSlice(pieces, k);
      forall c | c in Pgids(pieces[k]) ensures c == 0 {
        var i :| 0 <= i < |pieces[k]| && Pgids(pieces[k])[i] == c;
        assert s.Inodes(n)[Start(pieces, k)..Start(pieces, k + 1)][i] == pieces[k][i];
        assert KidsOf(s, n)[Start(pieces, k) + i] == c && c in KidsOf(s, n);
      }
    }
  }

  lemma {:induction false} SpillStocks(s: Store, t: Store, root: Pgid, h: nat, weak: Option<Pgid>, p: Pgid, n: Pgid, j: nat,
      pieces: seq<seq<Inode>>, ids: seq<Pgid>, now: seq<Pgid>, q: Pgid)
    requires Spills(s, t, root, h, weak, p, n, j, pieces, ids)
    requires (q in TreeIds(s, [root], h) && q != n) || q in ids
    requires 0 !in now
    ensures StockedAt(t, root, weak, now, q)
  {
    hide Bounded, LinkedUp, Whole, TreeIds, Entries, Refer, SpillLooks, Joined, Unused, Partition;
    if q in ids {
      var k :| 0 <= k < |ids| && ids[k] == q;
      PieceStocks(s, t, root, h, weak, p, n, j, pieces, ids, now, k);
    } else {
      assert StockedAt(s, root, weak, TreeIds(s, [root], h), q);
      LooksElsewhere(s, t, p, n, j, pieces, ids, q);
      if q == p {
        PiecesExist(s, n, pieces);
        ParentLength(s, t, p, n, j, pieces, ids);
      }
    }
  }

  lemma PiecesExist(s: Store, n: Pgid, pieces: seq<seq<Inode>>)
    requires Partition(s.Inodes(n), s.IsLeaf(n), pieces)
    ensures |pieces| >= 1
  {
  }

  lemma ParentLength(s: Store, t: Store, p: Pgid, n: Pgid, j: nat, pieces: seq<seq<Inode>>, ids: seq<Pgid>)
    requires |pieces| == |ids| && j < |s.Inodes(p)| && SpillLooks(s, t, p, n, j, pieces, ids)
    ensures |t.Inodes(p)| == |s.Inodes(p)| - 1 + |ids| && !t.IsLeaf(p)
  {
  }

  // Spilling a node leaves a sound store with the same contents; the node's page leaves the tree, the
  // pages of the pieces enter it.
  lemma {:induction false} SpillKeeps(s: Store, t: Store, root: Pgid, h: nat, weak: Option<Pgid>, p: Pgid, n: Pgid, j: nat,
      pieces: seq<seq<Inode>>, ids: seq<Pgid>)
    requires Spills(s, t, root, h, weak, p, n, j, pieces, ids) && root != 0
    ensures Sound(t, root, h, weak)
    ensures Leaves(t, [root], h) == Leaves(s, [root], h)
    ensures multiset(TreeIds(t, [root], h)) + multiset{n} == multiset(TreeIds(s, [root], h)) + multiset(ids)
  {
    hide Bounded, LinkedUp, Stocked, Layered, TreeIds, Leaves, Refer, SpillLooks, Partition, Rewires, KidsFit, Distinct;
    var r, all := Rewire(p, j, j + 1, Refer(pieces, ids)), TreeIds(s, [root], h);
    SpillRewires(s, t, root, h, weak, p, n, j, pieces, ids);
    var x, y := RewireKeeps(s, t, [root], h, r, all);
    ReferIds(pieces, ids);
    assert r.Block(s) == [s.Inodes(p)[j]] && Pgids(r.Block(s)) == [n];
    SpillBounded(s, t, root, h, weak, p, n, j, pieces, ids);
    WithoutOne(x, n, y);
    RootIsBranch(s, root, h, weak, p);
    forall q | q in ids ensures q !in all && q != 0 { UnusedIsOutside(s, root, h, weak, q); }
    Exchanged(x, n, y, ids);
    SpillNodes(s, t, root, h, weak, p, n, j, pieces, ids);
    SpillLinked(s, t, root, h, weak, p, n, j, pieces, ids, x + ids + y);
    NoZero(s, root, h, weak);
    SpillStocked(s, t, root, h, weak, p, n, j, pieces, ids, x + ids + y);
  }

  lemma {:induction false} Exchanged(x: seq<Pgid>, n: Pgid, y: seq<Pgid>, ids: seq<Pgid>)
    requires Distinct(x + y) && Distinct(ids) && forall q :: q in ids ==> q !in x + [n] + y
    ensures Distinct(x + ids + y)
    ensures forall q :: q in x + ids + y <==> q in x + y || q in ids
    ensures multiset(x + ids + y) + multiset{n} == multiset(x + [n] + y) + multiset(ids)
  {
    DistinctCounts(x + y);
    DistinctCounts(ids);
    DistinctCounts(x + ids + y);
    forall q: Pgid ensures Once(x + ids + y, q) {
      assert Once(x + y, q) && Once(ids, q);
      assert q in ids ==> q !in x && q !in y;
    }
  }

  lemma NoZero(s: Store, root: Pgid, h: nat, weak: Option<Pgid>)
    requires Sound(s, root, h, weak) && root != 0
    ensures 0 !in TreeIds(s, [root], h)
  {
    hide TreeIds;
    forall q | q in TreeIds(s, [root], h) ensures q != 0 {
      if q != root { NotZero(s, root, h, weak, q); }
    }
  }

  lemma {:induction false} SpillNodes(s: Store, t: Store, root: Pgid, h: nat, weak: Option<Pgid>, p: Pgid, n: Pgid, j: nat,
      pieces: seq<seq<Inode>>, ids: seq<Pgid>)
    requires Spills(s, t, root, h, weak, p, n, j, pieces, ids)
    ensures forall q :: q in t.nodes ==> q in TreeIds(s, [root], h) && q != n
    ensures root in t.nodes ==> t.nodes[root].parent == None
  {
    hide Bounded, LinkedUp, Stocked, Whole, TreeIds, Refer, Partition, Unused;
  }

  lemma {:induction false} SpillLinked(s: Store, t: Store, root: Pgid, h: nat, weak: Option<Pgid>, p: Pgid, n: Pgid, j: nat,
      pieces: seq<seq<Inode>>, ids: seq<Pgid>, now: seq<Pgid>)
    requires Spills(s, t, root, h, weak, p, n, j, pieces, ids)
    requires forall q :: q in now ==> (q in TreeIds(s, [root], h) && q != n) || q in ids
    ensures LinkedUp(t, now)
  {
    hide Spills, TreeIds, Link;
    forall q, i | q in now && !t.IsLeaf(q) && 0 <= i < |t.Inodes(q)| ensures Link(t, q, i) {
      SpillLinks(s, t, root, h, weak, p, n, j, pieces, ids, q, i);
    }
  }

  lemma {:induction false} SpillStocked(s: Store, t: Store, root: Pgid, h: nat, weak: Option<Pgid>, p: Pgid, n: Pgid, j: nat,
      pieces: seq<seq<Inode>>, ids: seq<Pgid>, now: seq<Pgid>)
    requires Spills(s, t, root, h, weak, p, n, j, pieces, ids) && 0 !in now
    requires forall q :: q in now ==> (q in TreeIds(s, [root], h) && q != n) || q in ids
    ensures Stocked(t, root, weak, now)
  {
    hide Spills, TreeIds, StockedAt;
    forall q | q in now ensures StockedAt(t, root, weak, now, q) {
      SpillStocks(s, t, root, h, weak, p, n, j, pieces, ids, now, q);
    }
  }

  // The store with one node under another id.
  ghost predicate Renames(s: Store, t: Store, a: Pgid, b: Pgid, ids: seq<Pgid>) {
    && t.Inodes(b) == s.Inodes(a) && t.IsLeaf(b) == s.IsLeaf(a)
    && forall q :: q in ids && q != a ==> t.Inodes(q) == s.Inodes(q) && t.IsLeaf(q) == s.IsLeaf(q)
  }

  lemma {:induction false} RenameKeeps(s: Store, t: Store, a: Pgid, b: Pgid, h: nat)
    requires Whole(s, [a], h) && Bounded(s, a, h, None, None) && Renames(s, t, a, b, TreeIds(s, [a], h)) && b !in TreeIds(s, [a], h)
    ensures Whole(t, [b], h) && Bounded(t, b, h, None, None)
    ensures Leaves(t, [b], h) == Leaves(s, [a], h)
    ensures TreeIds(s, [a], h) == [a] + TreeIds(s, [a], h)[1..] && TreeIds(t, [b], h) == [b] + TreeIds(s, [a], h)[1..]
  {
    hide Bounded, Layered, TreeIds, Leaves, Distinct, Entries;
    EntriesOfOne(s, a);
    EntriesOfOne(t, b);
    Deeper(s, [a], h);
    Deeper(t, [b], h);
    LayeredBelow(s, [a], h);
    var kids := KidsOf(s, a);
    var below := if h > 0 then TreeIds(s, kids, h - 1) else [];
    TopIn(s, a, h);
    DistinctConcat([a], below);
    assert a in [a];
    if h > 0 { LevelFrame(s, t, kids, h - 1); }
    LayerAbove(t, [b], h);
    OneMore(b, below);
    assert AgreeUnder(s, t, a, h);
    if s.Inodes(a) != [] {
      assert s.Inodes(a)[0..|s.Inodes(a)|] == s.Inodes(a);
      SliceBounded(s, t, a, b, h, None, None, 0, |s.Inodes(a)|);
    } else {
      NothingBounded(t, b, h);
    }
  }

  lemma OneMore(b: Pgid, below: seq<Pgid>)
    requires Distinct(below) && b !in below
    ensures Distinct([b] + below)
  {
  }

  lemma NothingBounded(t: Store, b: Pgid, h: nat)
    requires t.Inodes(b) == []
    ensures Bounded(t, b, h, None, None)
  {
  }

  // Only the root is left in the cache.
  ghost predicate RootOnly(s: Store, root: Pgid, h: nat) {
    Sound(s, root, h, None) && s.nodes.Keys == {root}
  }

  ghost predicate FreshPage(s: Store, id: Pgid) {
    id != 0 && id !in s.pages && id !in s.nodes
  }

  lemma {:induction false} FreshIsOutside(s: Store, root: Pgid, h: nat, id: Pgid)
    requires RootOnly(s, root, h) && FreshPage(s, id)
    ensures id !in TreeIds(s, [root], h) && id != root
  {
    if s.IsLeaf(root) {
      assert root in [root];
    } else {
      UnusedIsOutside(s, root, h, None, id);
    }
  }

  // The kids of a branch under the cached root are on pages.
  lemma {:induction false} KidOnPage(s: Store, root: Pgid, h: nat, q: Pgid, i: nat)
    requires RootOnly(s, root, h) && q in TreeIds(s, [root], h) && !s.IsLeaf(q) && i < |s.Inodes(q)|
    ensures var e := s.Inodes(q)[i];
      e.pgid in TreeIds(s, [root], h) && e.pgid !in s.nodes && FirstKey(s.Inodes(e.pgid)) == e.key
  {
    hide TreeIds, Bounded, Layered, Distinct, LinkedUp, Stocked;
    assert KidsOf(s, q)[i] == s.Inodes(q)[i].pgid;
    KidInTree(s, [root], h, q, s.Inodes(q)[i].pgid);
    LinkAt(s, root, h, None, q, i);
  }

  ghost function RootWritten(s: Store, root: Pgid, id: Pgid): Store {
    Store(s.pages[id := Page(s.IsLeaf(root), s.Inodes(root))], map[])
  }

  // Writing the root that fits a page.
  lemma {:induction false} RootWrittenKeeps(s: Store, root: Pgid, h: nat, id: Pgid)
    requires RootOnly(s, root, h) && FreshPage(s, id)
    ensures var t := RootWritten(s, root, id);
      && Sound(t, id, h, None) && Leaves(t, [id], h) == Leaves(s, [root], h)
      && TreeIds(s, [root], h) == [root] + TreeIds(s, [root], h)[1..]
      && TreeIds(t, [id], h) == [id] + TreeIds(s, [root], h)[1..]
  {
    hide TreeIds, Bounded, Layered, Distinct, LinkedUp, Stocked, Leaves;
    var t, all := RootWritten(s, root, id), TreeIds(s, [root], h);
    FreshIsOutside(s, root, h, id);
    RenameKeeps(s, t, root, id, h);
    RootApart(s, root, h);
    RootWrittenLinked(s, root, h, id, TreeIds(t, [id], h));
    RootWrittenStocked(s, root, h, id, TreeIds(t, [id], h));
  }

  lemma {:induction false} RootApart(s: Store, root: Pgid, h: nat)
    requires RootOnly(s, root, h)
    ensures TreeIds(s, [root], h) != [] && root !in TreeIds(s, [root], h)[1..]
    ensures forall q :: q in TreeIds(s, [root], h)[1..] ==> q in TreeIds(s, [root], h) && q != 0
  {
    hide Bounded, Layered, LinkedUp, Stocked;
    var all := TreeIds(s, [root], h);
    Deeper(s, [root], h);
    forall q | q in all[1..] ensures q in all && q != root && q != 0 {
      var i :| 0 <= i < |all[1..]| && all[1..][i] == q;
      assert all[0] == root && all[i + 1] == q;
      NotZero(s, root, h, None, q);
    }
  }

  lemma {:induction false} RootWrittenLinked(s: Store, root: Pgid, h: nat, id: Pgid, now: seq<Pgid>)
    requires RootOnly(s, root, h) && FreshPage(s, id)
    requires forall q :: q in now ==> q == id || (q in TreeIds(s, [root], h) && q != root)
    ensures LinkedUp(RootWritten(s, root, id), now)
  {
    hide TreeIds, Sound;
    var t := RootWritten(s, root, id);
    FreshIsOutside(s, root, h, id);
    RootOnTop(s, root, h);
    forall q, i | q in now && !t.IsLeaf(q) && 0 <= i < |t.Inodes(q)| ensures Link(t, q, i) {
      KidOnPage(s, root, h, if q == id then root else q, i);
    }
  }

  lemma {:induction false} RootWrittenStocked(s: Store, root: Pgid, h: nat, id: Pgid, now: seq<Pgid>)
    requires RootOnly(s, root, h) && FreshPage(s, id)
    requires forall q :: q in now ==> q == id || (q in TreeIds(s, [root], h) && q != root && q != 0)
    ensures Stocked(RootWritten(s, root, id), id, None, now)
  {
    hide TreeIds, Bounded, Whole, LinkedUp;
    var t, all := RootWritten(s, root, id), TreeIds(s, [root], h);
    FreshIsOutside(s, root, h, id);
    RootOnTop(s, root, h);
    forall q | q in now ensures StockedAt(t, id, None, now, q) {
      assert StockedAt(s, root, None, all, if q == id then root else q);
    }
  }

  // A new root above one that does not fit a page. Neither has a page yet, so the cache holds them
  // under ids that no page has.
  ghost function RootPushed(s: Store, root: Pgid, top: Pgid, id: Pgid): Store {
    var key := FirstKey(s.Inodes(root));
    Store(s.pages, map[
      top := Cached(false, false, [], None, [Inode(0, id, key, [])]),
      id := Cached(s.IsLeaf(root), false, key, Some(top), s.Inodes(root))])
  }

  lemma {:induction false} RootPushedKeeps(s: Store, root: Pgid, h: nat, top: Pgid, id: Pgid)
    requires RootOnly(s, root, h) && FreshPage(s, top) && FreshPage(s, id) && top != id && s.Inodes(root) != []
    ensures var t := RootPushed(s, root, top, id);
      && Bottom(t, top, h + 1, Some(top), top, id, 0) && Leaves(t, [top], h + 1) == Leaves(s, [root], h)
      && TreeIds(s, [root], h) == [root] + TreeIds(s, [root], h)[1..]
      && TreeIds(t, [top], h + 1) == [top, id] + TreeIds(s, [root], h)[1..]
  {
    hide TreeIds, Bounded, Layered, Distinct, LinkedUp, Stocked, Leaves, Entries;
    var t, all := RootPushed(s, root, top, id), TreeIds(s, [root], h);
    FreshIsOutside(s, root, h, id);
    FreshIsOutside(s, root, h, top);
    RenameKeeps(s, t, root, id, h);
    RootApart(s, root, h);
    BoundedParts(s, root, h, None, None);
    assert s.Inodes(root)[0] in s.Inodes(root);
    TopKeeps(t, top, id, h);
    PushedLinked(s, root, h, top, id, TreeIds(t, [top], h + 1));
    PushedStocked(s, root, h, top, id, TreeIds(t, [top], h + 1));
    PushedBottom(s, root, h, top, id);
  }

  lemma {:induction false} TopKeeps(t: Store, top: Pgid, id: Pgid, h: nat)
    requires Whole(t, [id], h) && Bounded(t, id, h, None, None) && top !in TreeIds(t, [id], h)
    requires |t.Inodes(top)| == 1 && t.Inodes(top)[0].pgid == id && t.Inodes(top)[0].key != [] && !t.IsLeaf(top)
    ensures Whole(t, [top], h + 1) && Bounded(t, top, h + 1, None, None)
    ensures Leaves(t, [top], h + 1) == Leaves(t, [id], h) && TreeIds(t, [top], h + 1) == [top] + TreeIds(t, [id], h)
  {
    hide TreeIds, Bounded, Layered, Distinct, Leaves, Entries;
    EntriesOfOne(t, top);
    assert KidsOf(t, top) == [id];
    Deeper(t, [top], h + 1);
    LayerAbove(t, [top], h + 1);
    OneMore(top, TreeIds(t, [id], h));
    OneAscends(t.Inodes(top)[0]);
    assert t.Inodes(top) == [t.Inodes(top)[0]];
    KidFromBounded(t, t.Inodes(top), 0, h + 1, None, None);
    MakeBounded(t, top, h + 1, None, None);
  }

  lemma {:induction false} PushedBottom(s: Store, root: Pgid, h: nat, top: Pgid, id: Pgid)
    requires RootOnly(s, root, h) && FreshPage(s, top) && FreshPage(s, id) && top != id
    requires id !in TreeIds(s, [root], h) && top !in TreeIds(s, [root], h)
    ensures var t := RootPushed(s, root, top, id);
      !t.IsLeaf(id) ==> forall c :: c in KidsOf(t, id) ==> c !in t.nodes
  {
    hide TreeIds, Bounded, Layered, Distinct, LinkedUp, Stocked;
    RootOnTop(s, root, h);
    if !s.IsLeaf(root) {
      forall c | c in KidsOf(s, root) ensures c in TreeIds(s, [root], h) { KidInTree(s, [root], h, root, c); }
    }
  }

  lemma {:induction false} PushedLinked(s: Store, root: Pgid, h: nat, top: Pgid, id: Pgid, now: seq<Pgid>)
    requires RootOnly(s, root, h) && FreshPage(s, top) && FreshPage(s, id) && top != id
    requires forall q :: q in now ==> q == id || q == top || (q in TreeIds(s, [root], h) && q != root)
    ensures LinkedUp(RootPushed(s, root, top, id), now)
  {
    hide TreeIds, Sound;
    var t := RootPushed(s, root, top, id);
    FreshIsOutside(s, root, h, id);
    FreshIsOutside(s, root, h, top);
    RootOnTop(s, root, h);
    forall q, i | q in now && !t.IsLeaf(q) && 0 <= i < |t.Inodes(q)| ensures Link(t, q, i) {
      if q != top { KidOnPage(s, root, h, if q == id then root else q, i); }
    }
  }

  lemma {:induction false} PushedStocked(s: Store, root: Pgid, h: nat, top: Pgid, id: Pgid, now: seq<Pgid>)
    requires RootOnly(s, root, h) && FreshPage(s, top) && FreshPage(s, id) && top != id && s.Inodes(root) != []
    requires forall q :: q in now ==> q == id || q == top || (q in TreeIds(s, [root], h) && q != root && q != 0)
    ensures Stocked(RootPushed(s, root, top, id), top, Some(top), now)
  {
    hide TreeIds, Bounded, Whole, LinkedUp;
    var t, all := RootPushed(s, root, top, id), TreeIds(s, [root], h);
    FreshIsOutside(s, root, h, id);
    FreshIsOutside(s, root, h, top);
    RootOnTop(s, root, h);
    forall q | q in now ensures StockedAt(t, top, Some(top), now, q) {
      assert StockedAt(s, root, None, all, if q == id || q == top then root else q);
    }
  }

  // The first keys of the pieces lie between the neighbours of the node in its parent.
  ghost predicate FirstsFit(inodes: seq<Inode>, j: nat, pieces: seq<seq<Inode>>)
    requires j < |inodes|
  {
    && (forall i, k :: 0 <= i < j && 0 <= k < |pieces| ==> Less(inodes[i].key, FirstKey(pieces[k])))
    && (forall i, k :: j < i < |inodes| && 0 <= k < |pieces| ==> Less(FirstKey(pieces[k]), inodes[i].key))
    && (forall i, k :: 0 <= i < k < |pieces| ==> Less(FirstKey(pieces[i]), FirstKey(pieces[k])))
    && (forall k :: 0 <= k < |pieces| ==> FirstKey(pieces[k]) != [])
  }

  lemma {:induction false} FirstsBetween(s: Store, root: Pgid, h: nat, weak: Option<Pgid>, p: Pgid, n: Pgid, j: nat, pieces: seq<seq<Inode>>)
    requires Bottom(s, root, h, weak, p, n, j) && Partition(s.Inodes(n), s.IsLeaf(n), pieces)
    ensures FirstsFit(s.Inodes(p), j, pieces) && s.nodes[n].key != []
  {
    hide Bounded, LinkedUp, Stocked, Whole, TreeIds, Entries, Joined, Less, Ascending, InodeKeys, Partition;
    var inodes, all := s.Inodes(p), s.Inodes(n);
    var h', lo, hi := BoundedAt(s, root, h, None, None, p);
    BranchHeight(s, p, h');
    BoundedParts(s, p, h', lo, hi);
    assert KidBounded(s, inodes, j, h', lo, hi) && inodes[j] in inodes;
    KidIsBounded(s, inodes, j, h', lo, hi);
    var lo', hi' := LowerAt(inodes, j, lo), UpperAt(inodes, j, hi);
    BoundedParts(s, n, h' - 1, lo', hi');
    forall k | 0 <= k < |pieces|
      ensures FirstKey(pieces[k]) != [] && AtLeast(FirstKey(pieces[k]), lo') && Beneath(FirstKey(pieces[k]), hi')
    {
      FirstWithin(s, n, pieces, k, lo', hi');
    }
    forall i, k | 0 <= i < j && 0 <= k < |pieces| ensures Less(inodes[i].key, FirstKey(pieces[k])) {
      KeyAt(inodes, i, j);
      Chain(inodes[i].key, inodes[j].key, FirstKey(pieces[k]));
    }
    forall i, k | j < i < |inodes| && 0 <= k < |pieces| ensures Less(FirstKey(pieces[k]), inodes[i].key) {
      KeyAt(inodes, j + 1, i);
      Chain(FirstKey(pieces[k]), inodes[j + 1].key, inodes[i].key);
    }
    forall i, k | 0 <= i < k < |pieces| ensures Less(FirstKey(pieces[i]), FirstKey(pieces[k])) {
      FirstsInOrder(s, n, pieces, i, k);
    }
  }

  lemma FirstWithin(s: Store, n: Pgid, pieces: seq<seq<Inode>>, k: nat, lo: Option<Key>, hi: Option<Key>)
    requires Partition(s.Inodes(n), s.IsLeaf(n), pieces) && k < |pieces| && KeysWithin(s.Inodes(n), lo, hi)
    ensures FirstKey(pieces[k]) != [] && AtLeast(FirstKey(pieces[k]), lo) && Beneath(FirstKey(pieces[k]), hi)
  {
    hide Joined, Less, Ascending;
    FirstAt(pieces, k);
    assert s.Inodes(n)[Start(pieces, k)] in s.Inodes(n);
  }

  lemma FirstsInOrder(s: Store, n: Pgid, pieces: seq<seq<Inode>>, i: nat, k: nat)
    requires Partition(s.Inodes(n), s.IsLeaf(n), pieces) && i < k < |pieces| && Ascending(InodeKeys(s.Inodes(n)))
    ensures Less(FirstKey(pieces[i]), FirstKey(pieces[k]))
  {
    hide Joined, Less, Ascending;
    FirstAt(pieces, i);
    FirstAt(pieces, k);
    StartsRise(pieces, i, k);
    KeyAt(s.Inodes(n), Start(pieces, i), Start(pieces, k));
  }

  // The parent's inodes when the first i pieces have been put.
  ghost function PutSoFar(inodes: seq<Inode>, j: nat, pieces: seq<seq<Inode>>, ids: seq<Pgid>): seq<Inode>
    requires j < |inodes| && |ids| <= |pieces|
  {
    if ids == [] then inodes else inodes[..j] + Refer(pieces[..|ids|], ids) + inodes[j + 1..]
  }

  // One more put: the first piece takes the place of the node, the others follow it.
  lemma {:induction false} PutPiece(inodes: seq<Inode>, j: nat, pieces: seq<seq<Inode>>, ids: seq<Pgid>, id: Pgid, key: Key)
    requires j < |inodes| && |ids| < |pieces| && Ascending(InodeKeys(inodes)) && FirstsFit(inodes, j, pieces)
    requires key == if ids == [] then inodes[j].key else FirstKey(pieces[|ids|])
    ensures Ascending(InodeKeys(PutSoFar(inodes, j, pieces, ids)))
    ensures Inserted(PutSoFar(inodes, j, pieces, ids), key, Inode(0, id, FirstKey(pieces[|ids|]), []))
         == PutSoFar(inodes, j, pieces, ids + [id])
  {
    hide Less, Ascending, FirstsFit;
    var inode := Inode(0, id, FirstKey(pieces[|ids|]), []);
    if ids == [] {
      ReplacedAt(inodes, j, inode);
      assert Refer(pieces[..1], [id]) == [inode] && ids + [id] == [id];
    } else {
      PutOrder(inodes, j, pieces, ids);
      var refs := Refer(pieces[..|ids|], ids);
      var before, rest := inodes[..j] + refs, inodes[j + 1..];
      InsertedBetween(before, rest, inode);
      assert Refer(pieces[..|ids| + 1], ids + [id]) == refs + [inode];
      assert before + [inode] + rest == inodes[..j] + (refs + [inode]) + rest;
    }
  }

  lemma {:induction false} ReplacedAt(inodes: seq<Inode>, j: nat, inode: Inode)
    requires Ascending(InodeKeys(inodes)) && j < |inodes|
    ensures Inserted(inodes, inodes[j].key, inode) == inodes[..j] + [inode] + inodes[j + 1..]
  {
    hide Less, Ascending, Rank;
    RemovedAt(inodes, j);
  }

  lemma {:induction false} InsertedBetween(before: seq<Inode>, rest: seq<Inode>, inode: Inode)
    requires forall e :: e in before ==> Less(e.key, inode.key)
    requires forall e :: e in rest ==> Less(inode.key, e.key)
    ensures Inserted(before + rest, inode.key, inode) == before + [inode] + rest
  {
    hide Less, Rank;
    RankOfSplit(before, rest, inode.key);
    if rest != [] {
      assert (before + rest)[|before|] == rest[0] && rest[0] in rest;
      LessIsStrict(inode.key, rest[0].key);
    }
  }

  lemma {:induction false} PutOrder(inodes: seq<Inode>, j: nat, pieces: seq<seq<Inode>>, ids: seq<Pgid>)
    requires j < |inodes| && 0 < |ids| <= |pieces| && Ascending(InodeKeys(inodes)) && FirstsFit(inodes, j, pieces)
    ensures Ascending(InodeKeys(inodes[..j] + Refer(pieces[..|ids|], ids) + inodes[j + 1..]))
    ensures |ids| < |pieces| ==>
      && (forall e :: e in inodes[..j] + Refer(pieces[..|ids|], ids) ==> Less(e.key, FirstKey(pieces[|ids|])))
      && (forall e :: e in inodes[j + 1..] ==> Less(FirstKey(pieces[|ids|]), e.key))
  {
    hide Less, Ascending;
    var a, b, c := inodes[..j], Refer(pieces[..|ids|], ids), inodes[j + 1..];
    Slices(inodes, 0, j);
    Slices(inodes, j + 1, |inodes|);
    assert inodes[0..j] == a && inodes[j + 1..|inodes|] == c;
    RefsAscend(inodes, j, pieces, ids);
    AscendingConcat(a, b);
    forall x: Inode, y: Inode | x in a + b && y in c ensures Less(x.key, y.key) {
      var k :| 0 <= k < |c| && c[k] == y;
      if x in a {
        var i :| 0 <= i < |a| && a[i] == x;
        KeyAt(inodes, i, j + 1 + k);
      }
    }
    AscendingConcat(a + b, c);
  }

  lemma RefsAscend(inodes: seq<Inode>, j: nat, pieces: seq<seq<Inode>>, ids: seq<Pgid>)
    requires j < |inodes| && 0 < |ids| <= |pieces| && FirstsFit(inodes, j, pieces)
    ensures Ascending(InodeKeys(Refer(pieces[..|ids|], ids)))
  {
    hide Less;
    var b := Refer(pieces[..|ids|], ids);
    forall i, k | 0 <= i < k < |b| ensures Less(InodeKeys(b)[i], InodeKeys(b)[k]) {
      assert b[i].key == FirstKey(pieces[i]) && b[k].key == FirstKey(pieces[k]);
    }
  }
}
