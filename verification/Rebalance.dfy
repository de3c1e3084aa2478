// rebalance of environment/bbolt/node.go over the node cache of environment/bbolt/bucket.go: merging,
// dropping and collapsing nodes keeps the leaf sequence and brings every branch back to two inodes.
module Rebalance {
  import opened Bounds
  import opened Inodes
  import opened Keys
  import opened Levels
  import opened Nodes
  import opened Options
  import opened PageIds

  // A branch and one of its kids know each other: by the key, and by the parent pointer if the kid is cached.
  ghost predicate Link(s: Store, p: Pgid, i: nat)
    requires i < |s.Inodes(p)|
  {
    var e := s.Inodes(p)[i];
    && s.KeyOf(e.pgid) == e.key
    && (e.pgid in s.nodes ==> p in s.nodes && s.nodes[e.pgid].parent == Some(p))
  }

  ghost predicate LinkedUp(s: Store, ids: seq<Pgid>) {
    forall p, i :: p in ids && !s.IsLeaf(p) && 0 <= i < |s.Inodes(p)| ==> Link(s, p, i)
  }

  // A branch has two inodes; a node without any is the root or waits in the cache to be rebalanced; and
  // the page ids in a leaf are zero and name no node, unless it is an inline root. The weak node is the one
  // being rebalanced right now.
  ghost predicate StockedAt(s: Store, root: Pgid, weak: Option<Pgid>, ids: seq<Pgid>, p: Pgid) {
    && (!s.IsLeaf(p) ==> |s.Inodes(p)| >= if weak == Some(p) then 1 else 2)
    && (p != root && s.Inodes(p) == [] ==> p in s.nodes && (s.nodes[p].unbalanced || weak == Some(p)))
    && (p == 0 ==> p == root)
    && (s.IsLeaf(p) ==> forall c :: c in KidsOf(s, p) ==> c == 0 && (p == root || c !in ids))
  }

  ghost predicate Stocked(s: Store, root: Pgid, weak: Option<Pgid>, ids: seq<Pgid>) {
    forall p :: p in ids ==> StockedAt(s, root, weak, ids, p)
  }

  ghost predicate Sound(s: Store, root: Pgid, h: nat, weak: Option<Pgid>) {
    var ids := TreeIds(s, [root], h);
    && Whole(s, [root], h) && Bounded(s, root, h, None, None)
    && (forall p :: p in s.nodes ==> p in ids)
    && (root in s.nodes ==> s.nodes[root].parent == None)
    && LinkedUp(s, ids)
    && Stocked(s, root, weak, ids)
  }

  // What has to hold before a call: a node short of inodes is marked unbalanced.
  ghost predicate Ready(s: Store, root: Pgid, n: Pgid) {
    && n in s.nodes
    && (!s.nodes[n].isLeaf && |s.nodes[n].inodes| < 2 ==> s.nodes[n].unbalanced)
    && (n != root && s.nodes[n].inodes == [] ==> s.nodes[n].unbalanced)
  }

  // Bucket.node: reads a page into the cache.
  function Materialized(s: Store, p: Pgid, parent: Option<Pgid>): map<Pgid, Cached> {
    if p in s.nodes then s.nodes else
      s.nodes[p := Cached(s.IsLeaf(p), false, FirstKey(s.Inodes(p)), parent, s.Inodes(p))]
  }

  lemma MaterializeIsInvisible(s: Store, p: Pgid, parent: Option<Pgid>)
    ensures var t := s.(nodes := Materialized(s, p, parent));
      forall q :: t.Inodes(q) == s.Inodes(q) && t.IsLeaf(q) == s.IsLeaf(q) && t.KeyOf(q) == s.KeyOf(q)
  {
  }

  lemma {:induction false} MaterializeKeeps(s: Store, root: Pgid, h: nat, weak: Option<Pgid>, p: Pgid, i: nat)
    requires Sound(s, root, h, weak) && p in TreeIds(s, [root], h) && p in s.nodes && !s.IsLeaf(p) && i < |s.Inodes(p)|
    ensures var c := s.Inodes(p)[i].pgid; var t := s.(nodes := Materialized(s, c, Some(p)));
      && Sound(t, root, h, weak) && Leaves(t, [root], h) == Leaves(s, [root], h) && TreeIds(t, [root], h) == TreeIds(s, [root], h)
      && c in t.nodes && t.nodes[c].parent == Some(p) && t.nodes[c].key == s.Inodes(p)[i].key
      && (c !in s.nodes ==> s.Inodes(c) != [])
  {
    hide Bounded, Layered, TreeIds, Leaves, Distinct;
    var c := s.Inodes(p)[i].pgid;
    var t := s.(nodes := Materialized(s, c, Some(p)));
    var ids := TreeIds(s, [root], h);
    MaterializeIsInvisible(s, c, Some(p));
    LevelFrame(s, t, [root], h);
    BoundedFrame(s, t, root, h, None, None);
    assert KidsOf(s, p)[i] == c;
    KidInTree(s, [root], h, p, c);
    assert Link(s, p, i);
    forall q, k | q in ids && !t.IsLeaf(q) && 0 <= k < |t.Inodes(q)| ensures Link(t, q, k) {
      assert Link(s, q, k);
      if s.Inodes(q)[k].pgid == c {
        assert KidsOf(s, q)[k] == c;
        OneParent(s, [root], h, p, q, c);
      }
    }
    forall q | q in ids ensures StockedAt(t, root, weak, ids, q) { assert StockedAt(s, root, weak, ids, q); }
  }

  lemma {:induction false} KidInTree(s: Store, ps: seq<Pgid>, h: nat, p: Pgid, c: Pgid)
    requires Layered(s, ps, h) && Distinct(TreeIds(s, ps, h)) && p in TreeIds(s, ps, h) && !s.IsLeaf(p) && c in KidsOf(s, p)
    ensures c in TreeIds(s, ps, h) && c !in ps
  {
    hide Bounded, Layered, Distinct, Entries;
    KidsBelow(s, ps, h, p, c);
    DistinctConcat(ps, TreeIds(s, Kids(s, ps), h - 1));
  }

  // The loop that hands kids over to another parent.
  function Reparented(nodes: map<Pgid, Cached>, kids: seq<Pgid>, p: Pgid): map<Pgid, Cached> {
    if kids == [] then nodes else
      var c := kids[|kids| - 1];
      var before := Reparented(nodes, kids[..|kids| - 1], p);
      if c in before then before[c := before[c].(parent := Some(p))] else before
  }

  lemma {:induction false} ReparentedIs(nodes: map<Pgid, Cached>, kids: seq<Pgid>, p: Pgid)
    ensures var after := Reparented(nodes, kids, p);
      && after.Keys == nodes.Keys
      && forall q :: q in nodes ==> after[q] == if q in kids then nodes[q].(parent := Some(p)) else nodes[q]
  {
    if kids != [] {
      var k := |kids| - 1;
      ReparentedIs(nodes, kids[..k], p);
      assert kids == kids[..k] + [kids[k]];
    }
  }

  // What a merge of the right node into the left one makes of the cache.
  ghost function MergedCache(s: Store, p: Pgid, left: Pgid, right: Pgid): map<Pgid, Cached>
    requires p in s.nodes && left in s.nodes && right in s.nodes
  {
    ReparentedIs(s.nodes, KidsOf(s, right), left);
    var m := Reparented(s.nodes, KidsOf(s, right), left);
    var m' := m[left := m[left].(inodes := s.Inodes(left) + s.Inodes(right))];
    m'[p := m'[p].(inodes := Removed(m'[p].inodes, s.nodes[right].key), unbalanced := true)] - {right}
  }

  // Where a merge happens: neighbours in a branch that is not weak itself.
  ghost predicate Neighbours(s: Store, root: Pgid, h: nat, p: Pgid, j: nat) {
    && p in TreeIds(s, [root], h) && p in s.nodes && !s.IsLeaf(p) && 0 < j < |s.Inodes(p)|
    && s.Inodes(p)[j - 1].pgid in s.nodes && s.Inodes(p)[j].pgid in s.nodes
  }

  // How the inodes of a branch change when its kid j merges into the kid before it, or is dropped.
  function Unhooking(s: Store, p: Pgid, j: nat, left: Pgid): Rewire
    requires j < |s.Inodes(p)| && (s.Inodes(p)[j].pgid != left ==> j > 0)
  {
    if s.Inodes(p)[j].pgid == left then Rewire(p, j, j + 1, []) else Rewire(p, j - 1, j + 1, [s.Inodes(p)[j - 1]])
  }

  ghost predicate Unhooks(s: Store, t: Store, p: Pgid, j: nat, left: Pgid) {
    && j < |s.Inodes(p)|
    && (s.Inodes(p)[j].pgid != left ==> j > 0 && s.Inodes(p)[j - 1].pgid == left)
    && Rewires(s, t, Unhooking(s, p, j, left))
  }

  lemma UnhooksBranch(s: Store, t: Store, p: Pgid, j: nat, left: Pgid)
    requires Unhooks(s, t, p, j, left)
    ensures !s.IsLeaf(p) && !t.IsLeaf(p) && j < |s.Inodes(p)|
    ensures t.Inodes(p) == s.Inodes(p)[..j] + s.Inodes(p)[j + 1..]
  {
    hide Entries;
    var inodes := s.Inodes(p);
    if s.Inodes(p)[j].pgid != left {
      assert inodes[..j - 1] + [inodes[j - 1]] == inodes[..j];
    } else {
      assert inodes[..j] + [] == inodes[..j];
    }
  }

  lemma BranchKeysAscend(s: Store, root: Pgid, h: nat, p: Pgid)
    requires Whole(s, [root], h) && Bounded(s, root, h, None, None) && p in TreeIds(s, [root], h)
    ensures Ascending(InodeKeys(s.Inodes(p)))
  {
    hide Bounded, TreeIds, Whole;
    var _, _, _ := BoundedAt(s, root, h, None, None, p);
  }

  // How a store looks after a merge or a drop in branch p, where the right node left the cache.
  ghost predicate Looks(s: Store, t: Store, p: Pgid, left: Pgid, right: Pgid, merged: seq<Inode>) {
    && t.Inodes(p) == Removed(s.Inodes(p), s.KeyOf(right)) && t.IsLeaf(p) == s.IsLeaf(p)
    && (left != right ==> t.Inodes(left) == merged && t.IsLeaf(left) == s.IsLeaf(left))
    && forall q :: q != p && q != left && q != right ==> t.Inodes(q) == s.Inodes(q) && t.IsLeaf(q) == s.IsLeaf(q)
  }

  lemma MergedLooks(s: Store, p: Pgid, left: Pgid, right: Pgid)
    requires p in s.nodes && left in s.nodes && right in s.nodes && left != right && left != p && right != p
    ensures Looks(s, s.(nodes := MergedCache(s, p, left, right)), p, left, right, s.Inodes(left) + s.Inodes(right))
  {
    hide Removed, Reparented;
    ReparentedIs(s.nodes, KidsOf(s, right), left);
  }

  lemma {:induction false} MergeUnhooks(s: Store, root: Pgid, h: nat, weak: Option<Pgid>, p: Pgid, j: nat)
    requires Sound(s, root, h, weak) && Neighbours(s, root, h, p, j)
    ensures var left, right := s.Inodes(p)[j - 1].pgid, s.Inodes(p)[j].pgid;
      var t := s.(nodes := MergedCache(s, p, left, right));
      && left != right && left != p && right != p
      && Unhooks(s, t, p, j, left)
  {
    hide Bounded, Layered, TreeIds, LinkedUp, Stocked, MergedCache, Entries, Removed, Unhooks, Looks, Distinct, Ascending;
    var left, right := s.Inodes(p)[j - 1].pgid, s.Inodes(p)[j].pgid;
    var kids := KidsOf(s, p);
    assert kids[j - 1] == left && kids[j] == right;
    KidsDiffer(s, [root], h, p);
    LinkAt(s, root, h, weak, p, j);
    BranchKeysAscend(s, root, h, p);
    RemovedAt(s.Inodes(p), j);
    var t := s.(nodes := MergedCache(s, p, left, right));
    DistinctAt(kids, j - 1, j);
    MergedLooks(s, p, left, right);
    forall c | c in kids ensures s.IsLeaf(c) == s.IsLeaf(left) { SiblingsAlike(s, [root], h, p, c, left); }
    LooksUnhooked(s, t, p, j, left, right);
  }

  lemma {:induction false} LooksUnhooked(s: Store, t: Store, p: Pgid, j: nat, left: Pgid, right: Pgid)
    requires 0 < j < |s.Inodes(p)| && !s.IsLeaf(p) && left != right && left != p && right != p
    requires KidsOf(s, p)[j - 1] == left && KidsOf(s, p)[j] == right
    requires forall c :: c in KidsOf(s, p) ==> s.IsLeaf(c) == s.IsLeaf(left)
    requires Removed(s.Inodes(p), s.KeyOf(right)) == s.Inodes(p)[..j] + s.Inodes(p)[j + 1..]
    requires Looks(s, t, p, left, right, s.Inodes(left) + s.Inodes(right))
    ensures Unhooks(s, t, p, j, left)
  {
    hide Entries, Removed;
    var inodes, r := s.Inodes(p), Unhooking(s, p, j, left);
    assert r.Block(s) == [inodes[j - 1], inodes[j]];
    assert Pgids(r.Block(s)) == [left] + [right] && Pgids(r.with) == [left];
    assert inodes[..j] == inodes[..j - 1] + [inodes[j - 1]];
    EntriesConcat(s, [left], [right]);
    EntriesOfOne(s, left);
    EntriesOfOne(s, right);
    EntriesOfOne(t, left);
  }

  lemma LinkAt(s: Store, root: Pgid, h: nat, weak: Option<Pgid>, p: Pgid, j: nat)
    requires Sound(s, root, h, weak) && p in TreeIds(s, [root], h) && !s.IsLeaf(p) && j < |s.Inodes(p)|
    ensures Link(s, p, j)
  {
  }

  // What happens to the cache: one node leaves it, its kids go to the left node.
  ghost predicate Hands(s: Store, t: Store, p: Pgid, left: Pgid, right: Pgid) {
    && t.pages == s.pages && t.nodes.Keys == s.nodes.Keys - {right}
    && forall q :: q in t.nodes ==>
      && t.nodes[q].key == s.nodes[q].key
      && t.nodes[q].unbalanced == (s.nodes[q].unbalanced || q == p)
      && t.nodes[q].parent == if q in KidsOf(s, right) then Some(left) else s.nodes[q].parent
  }

  // A merge, or a drop of a node without inodes, of kid j of a branch that is not weak; the weak one is
  // among the merged.
  ghost predicate Merges(s: Store, t: Store, root: Pgid, h: nat, weak: Option<Pgid>, p: Pgid, j: nat, left: Pgid) {
    && Sound(s, root, h, weak) && p in TreeIds(s, [root], h) && p in s.nodes && j < |s.Inodes(p)|
    && Unhooks(s, t, p, j, left) && weak != Some(p)
    && var right := KidsOf(s, p)[j];
      && right in s.nodes && Looks(s, t, p, left, right, s.Inodes(left) + s.Inodes(right)) && Hands(s, t, p, left, right)
      && (weak == Some(left) || weak == Some(right))
      && if left == right then s.Inodes(right) == [] else
        left in KidsOf(s, p) && left in s.nodes && s.Inodes(left) + s.Inodes(right) != [] && s.IsLeaf(left) == s.IsLeaf(right)
  }

  // Where an inode of the new tree comes from.
  // A kid is in one place only.
  lemma {:induction false} OnePlace(s: Store, root: Pgid, h: nat, weak: Option<Pgid>, p: Pgid, j: nat, q: Pgid, i: nat)
    requires Sound(s, root, h, weak) && p in TreeIds(s, [root], h) && q in TreeIds(s, [root], h) && !s.IsLeaf(p) && !s.IsLeaf(q)
    requires j < |s.Inodes(p)| && i < |s.Inodes(q)| && s.Inodes(q)[i].pgid == s.Inodes(p)[j].pgid
    ensures q == p && i == j
  {
    hide Bounded, Layered, TreeIds, LinkedUp, Stocked, Distinct;
    assert KidsOf(s, q)[i] == KidsOf(s, p)[j];
    OneParent(s, [root], h, p, q, KidsOf(s, p)[j]);
    KidsDiffer(s, [root], h, p);
    if i != j { DistinctAt(KidsOf(s, p), i, j); }
  }

  lemma {:induction false} Origin(s: Store, t: Store, root: Pgid, h: nat, weak: Option<Pgid>, p: Pgid, j: nat, left: Pgid, q: Pgid, i: nat)
    returns (q': Pgid, i': nat)
    requires Merges(s, t, root, h, weak, p, j, left) && q in TreeIds(s, [root], h) && q != KidsOf(s, p)[j]
    requires !t.IsLeaf(q) && i < |t.Inodes(q)|
    ensures q' in TreeIds(s, [root], h) && !s.IsLeaf(q') && i' < |s.Inodes(q')| && s.Inodes(q')[i'] == t.Inodes(q)[i]
    ensures q' == q || (q' == KidsOf(s, p)[j] && q == left)
    ensures t.Inodes(q)[i].pgid != KidsOf(s, p)[j]
  {
    hide Sound, TreeIds, Unhooks, Hands, Removed;
    UnhooksBranch(s, t, p, j, left);
    var right := KidsOf(s, p)[j];
    RightInTree(s, root, h, weak, p, right);
    q', i' := q, i;
    if q == p {
      i' := if i < j then i else i + 1;
    } else if q == left && i >= |s.Inodes(left)| {
      q', i' := right, i - |s.Inodes(left)|;
    }
    if t.Inodes(q)[i].pgid == right { OnePlace(s, root, h, weak, p, j, q', i'); }
  }

  lemma RightInTree(s: Store, root: Pgid, h: nat, weak: Option<Pgid>, p: Pgid, right: Pgid)
    requires Sound(s, root, h, weak) && p in TreeIds(s, [root], h) && !s.IsLeaf(p) && right in KidsOf(s, p)
    ensures right in TreeIds(s, [root], h) && right != p
  {
    hide Bounded, TreeIds, LinkedUp, Stocked;
    KidInTree(s, [root], h, p, right);
    KidsDiffer(s, [root], h, p);
  }

  lemma DistinctAt(ids: seq<Pgid>, i: nat, j: nat)
    requires Distinct(ids) && i < |ids| && j < |ids| && i != j
    ensures ids[i] != ids[j]
  {
  }

  lemma {:induction false} MergeLinks(s: Store, t: Store, root: Pgid, h: nat, weak: Option<Pgid>, p: Pgid, j: nat, left: Pgid, q: Pgid, i: nat)
    requires Merges(s, t, root, h, weak, p, j, left) && q in TreeIds(s, [root], h) && q != KidsOf(s, p)[j]
    requires !t.IsLeaf(q) && i < |t.Inodes(q)|
    ensures Link(t, q, i)
  {
    hide Bounded, Layered, TreeIds, Stocked, Distinct, Unhooks, Looks, LinkedUp;
    var right := KidsOf(s, p)[j];
    var q', i' := Origin(s, t, root, h, weak, p, j, left, q, i);
    LinkAt(s, root, h, weak, q', i');
    var c := t.Inodes(q)[i].pgid;
    assert KidsOf(s, q')[i'] == c;
    UnhooksBranch(s, t, p, j, left);
    KidInTree(s, [root], h, p, right);
    if q' != right && c in KidsOf(s, right) {
      RightsKids(s, root, h, weak, q', right, c);
    }
  }

  // Only the right node has its kids.
  lemma {:induction false} RightsKids(s: Store, root: Pgid, h: nat, weak: Option<Pgid>, q: Pgid, right: Pgid, c: Pgid)
    requires Sound(s, root, h, weak) && right in s.nodes && right != root
    requires q in TreeIds(s, [root], h) && !s.IsLeaf(q) && c in KidsOf(s, q) && c in KidsOf(s, right)
    ensures q == right
  {
    hide Bounded, Layered, TreeIds, LinkedUp, Distinct;
    KidInTree(s, [root], h, q, c);
    assert StockedAt(s, root, weak, TreeIds(s, [root], h), right);
    if !s.IsLeaf(right) { OneParent(s, [root], h, q, right, c); }
  }

  lemma {:induction false} MergeStocks(s: Store, t: Store, root: Pgid, h: nat, weak: Option<Pgid>, p: Pgid, j: nat, left: Pgid,
      ids: seq<Pgid>, q: Pgid)
    requires Merges(s, t, root, h, weak, p, j, left) && q in TreeIds(s, [root], h) && q != KidsOf(s, p)[j]
    requires forall r :: r in ids ==> r in TreeIds(s, [root], h)
    ensures StockedAt(t, root, Some(p), ids, q)
  {
    hide Bounded, Layered, TreeIds, LinkedUp, Distinct, Unhooks, Removed;
    UnhooksBranch(s, t, p, j, left);
    var all, right := TreeIds(s, [root], h), KidsOf(s, p)[j];
    KidInTree(s, [root], h, p, right);
    KidsDiffer(s, [root], h, p);
    assert StockedAt(s, root, weak, all, q) && StockedAt(s, root, weak, all, right);
    if q == left {
      KidInTree(s, [root], h, p, left);
      JoinedStock(s, t, root, weak, p, left, right, all, ids);
    } else if q == p {
      assert |t.Inodes(p)| == |s.Inodes(p)| - 1;
    }
  }

  lemma JoinedStock(s: Store, t: Store, root: Pgid, weak: Option<Pgid>, p: Pgid, left: Pgid, right: Pgid, all: seq<Pgid>, ids: seq<Pgid>)
    requires StockedAt(s, root, weak, all, left) && StockedAt(s, root, weak, all, right) && left != right
    requires left != root && right != root && left != p
    requires weak == Some(left) || weak == Some(right)
    requires t.Inodes(left) == s.Inodes(left) + s.Inodes(right) && t.Inodes(left) != []
    requires t.IsLeaf(left) == s.IsLeaf(left) == s.IsLeaf(right)
    requires forall r :: r in ids ==> r in all
    ensures StockedAt(t, root, Some(p), ids, left)
  {
    PgidsConcat(s.Inodes(left), s.Inodes(right));
    if t.IsLeaf(left) {
      forall c | c in KidsOf(t, left) ensures c == 0 && c !in ids {
        assert c in KidsOf(s, left) || c in KidsOf(s, right);
      }
    }
  }

  lemma WithoutOne(x: seq<Pgid>, c: Pgid, y: seq<Pgid>)
    requires Distinct(x + [c] + y)
    ensures Distinct(x + y) && forall q :: q in x + y <==> q in x + [c] + y && q != c
    ensures multiset(x + [c] + y) == multiset(x + y) + multiset{c}
  {
    var all, rest := x + [c] + y, x + y;
    forall i, j | 0 <= i < j < |rest| ensures rest[i] != rest[j] {
      var i', j' := if i < |x| then i else i + 1, if j < |x| then j else j + 1;
      assert all[i'] == rest[i] && all[j'] == rest[j];
    }
    DistinctConcat(x + [c], y);
    DistinctConcat(x, [c]);
  }

  lemma {:induction false} UnhookKidsFit(s: Store, root: Pgid, h: nat, p: Pgid, j: nat, left: Pgid)
    requires j < |s.Inodes(p)| && (s.Inodes(p)[j].pgid != left ==> j > 0)
    ensures KidsFit(s, TreeIds(s, [root], h), Unhooking(s, p, j, left))
  {
    hide TreeIds;
    var r := Unhooking(s, p, j, left);
    if s.Inodes(p)[j].pgid != left {
      assert r.Block(s)[0] == s.Inodes(p)[j - 1];
      assert Pgids(r.Block(s))[0] == Pgids(r.with)[0];
    }
  }

  lemma {:induction false} UnhookKeeps(s: Store, t: Store, root: Pgid, h: nat, weak: Option<Pgid>, p: Pgid, j: nat, left: Pgid)
    returns (x: seq<Pgid>, y: seq<Pgid>)
    requires Merges(s, t, root, h, weak, p, j, left)
    ensures Leaves(t, [root], h) == Leaves(s, [root], h) && Layered(t, [root], h)
    ensures TreeIds(s, [root], h) == x + [KidsOf(s, p)[j]] + y && TreeIds(t, [root], h) == x + y
  {
    hide Bounded, Layered, TreeIds, Leaves, LinkedUp, Stocked, Looks, Hands, Distinct, Unhooks, Unhooking, Rewires, KidsFit;
    UnhooksBranch(s, t, p, j, left);
    UnhookBlock(s, t, p, j, left);
    UnhookKidsFit(s, root, h, p, j, left);
    x, y := RewireKeeps(s, t, [root], h, Unhooking(s, p, j, left), TreeIds(s, [root], h));
    if s.Inodes(p)[j].pgid != left { x := x + [left]; }
  }

  lemma UnhookBlock(s: Store, t: Store, p: Pgid, j: nat, left: Pgid)
    requires Unhooks(s, t, p, j, left)
    ensures j < |s.Inodes(p)| && (s.Inodes(p)[j].pgid != left ==> j > 0) && Rewires(s, t, Unhooking(s, p, j, left))
    ensures Unhooking(s, p, j, left).p == p
    ensures var r, right := Unhooking(s, p, j, left), KidsOf(s, p)[j];
      if s.Inodes(p)[j].pgid != left then Pgids(r.Block(s)) == [left] + [right] && Pgids(r.with) == [left]
      else Pgids(r.Block(s)) == [right] && Pgids(r.with) == []
  {
    hide Rewires;
  }

  // A merge or a drop keeps all the bounds above it.
  lemma {:induction false} UnhookBounded(s: Store, t: Store, root: Pgid, h: nat, weak: Option<Pgid>, p: Pgid, j: nat, left: Pgid)
    requires Merges(s, t, root, h, weak, p, j, left)
    ensures Bounded(t, root, h, None, None)
  {
    hide Bounded, Layered, TreeIds, LinkedUp, Stocked, Looks, Hands, Distinct, Rewires, KidsFit, Covers, Whole;
    var r, ids := Unhooking(s, p, j, left), TreeIds(s, [root], h);
    UnhookKidsFit(s, root, h, p, j, left);
    forall h', lo, hi | Whole(s, [p], h') && Covers(ids, TreeIds(s, [p], h')) && Bounded(s, p, h', lo, hi)
      ensures Bounded(t, p, h', lo, hi)
    {
      UnhookFits(s, t, root, h, weak, p, j, left, h', lo, hi);
      RewiredBounded(s, t, r, ids, h', lo, hi);
    }
    CoversItself(ids);
    RewireBounded(s, t, root, h, None, None, r, ids);
  }

  lemma CoversItself(ids: seq<Pgid>)
    ensures Covers(ids, ids)
  {
  }

  lemma {:induction false} UnhookFits(s: Store, t: Store, root: Pgid, h: nat, weak: Option<Pgid>, p: Pgid, j: nat, left: Pgid,
      h': nat, lo: Option<Key>, hi: Option<Key>)
    requires Merges(s, t, root, h, weak, p, j, left) && Whole(s, [p], h') && Bounded(s, p, h', lo, hi)
    ensures h' > 0 && Fits(s, t, Unhooking(s, p, j, left), h', lo, hi)
  {
    hide Bounded, Whole, LinkedUp, Stocked, Hands, Looks, Rewires, KidsFit, Unhooks, Fits, KidBounded, KeysWithin;
    UnhooksBranch(s, t, p, j, left);
    BranchHeight(s, p, h');
    BoundedParts(s, p, h', lo, hi);
    if s.Inodes(p)[j].pgid != left {
      JoinedKid(s, t, root, h, weak, p, j, left, h', lo, hi);
      OneFits(s, t, p, j, h', lo, hi);
    } else {
      NoneFits(s, t, p, j, h', lo, hi);
    }
  }

  lemma {:induction false} OneFits(s: Store, t: Store, p: Pgid, j: nat, h: nat, lo: Option<Key>, hi: Option<Key>)
    requires h > 0 && 0 < j < |s.Inodes(p)| && KeysWithin(s.Inodes(p), lo, hi)
    requires KidBounded(t, Rewire(p, j - 1, j + 1, [s.Inodes(p)[j - 1]]).Result(s), j - 1, h, lo, hi)
    ensures Fits(s, t, Rewire(p, j - 1, j + 1, [s.Inodes(p)[j - 1]]), h, lo, hi)
  {
    hide Less, Ascending, KidBounded, InodeKeys;
    var inodes := s.Inodes(p);
    assert inodes[j - 1] in inodes;
    if j + 1 < |inodes| { KeyAt(inodes, j - 1, j + 1); }
    OneAscends(inodes[j - 1]);
  }

  lemma NoneFits(s: Store, t: Store, p: Pgid, j: nat, h: nat, lo: Option<Key>, hi: Option<Key>)
    requires h > 0 && j < |s.Inodes(p)|
    ensures Fits(s, t, Rewire(p, j, j + 1, []), h, lo, hi)
  {
  }

  lemma BranchHeight(s: Store, p: Pgid, h: nat)
    requires Whole(s, [p], h) && !s.IsLeaf(p)
    ensures h > 0
  {
    assert p in [p];
  }

  lemma {:induction false} JoinedKid(s: Store, t: Store, root: Pgid, h: nat, weak: Option<Pgid>, p: Pgid, j: nat, left: Pgid,
      h': nat, lo: Option<Key>, hi: Option<Key>)
    requires Merges(s, t, root, h, weak, p, j, left) && Whole(s, [p], h') && Bounded(s, p, h', lo, hi) && h' > 0
    requires s.Inodes(p)[j].pgid != left
    ensures KidBounded(t, Unhooking(s, p, j, left).Result(s), j - 1, h', lo, hi)
  {
    hide Bounded, Layered, TreeIds, LinkedUp, Stocked, Hands, Distinct, Rewires, Less, Ascending, KidBounded, Whole, Apart, Removed;
    var inodes, kids := s.Inodes(p), KidsOf(s, p);
    var result, right := Unhooking(s, p, j, left).Result(s), kids[j];
    assert kids[j - 1] == left && right == inodes[j].pgid;
    BoundedParts(s, p, h', lo, hi);
    assert KidBounded(s, inodes, j - 1, h', lo, hi) && KidBounded(s, inodes, j, h', lo, hi);
    KidIsBounded(s, inodes, j - 1, h', lo, hi);
    KidIsBounded(s, inodes, j, h', lo, hi);
    ClearKid(s, p, h', j - 1, j);
    ClearKid(s, p, h', j, j - 1);
    LooksUnder(s, t, p, left, right, left, h' - 1);
    LooksUnder(s, t, p, left, right, right, h' - 1);
    KeyAt(inodes, j - 1, j);
    if j + 1 < |inodes| { KeyAt(inodes, j, j + 1); }
    assert inodes[j] in inodes;
    JoinBounded(s, t, left, right, h' - 1, LowerAt(inodes, j - 1, lo), inodes[j].key, UpperAt(inodes, j, hi));
    assert result[j - 1] == inodes[j - 1] && |result| == |inodes| - 1 && (j < |result| ==> result[j] == inodes[j + 1]);
    KidFromBounded(t, result, j - 1, h', lo, hi);
  }

  lemma KidFromBounded(s: Store, inodes: seq<Inode>, i: nat, h: nat, lo: Option<Key>, hi: Option<Key>)
    requires h > 0 && i < |inodes| && Bounded(s, inodes[i].pgid, h - 1, LowerAt(inodes, i, lo), UpperAt(inodes, i, hi))
    ensures KidBounded(s, inodes, i, h, lo, hi)
  {
  }

  ghost predicate ClearOf(s: Store, c: Pgid, h: nat, p: Pgid, d: Pgid) {
    forall q :: q in TreeIds(s, [c], h) ==> q != p && q != d
  }

  // The subtree of a kid holds neither the branch nor another kid.
  lemma {:induction false} ClearKid(s: Store, p: Pgid, h: nat, i: nat, k: nat)
    requires Whole(s, [p], h) && h > 0 && i < |s.Inodes(p)| && k < |s.Inodes(p)| && i != k
    ensures ClearOf(s, s.Inodes(p)[i].pgid, h - 1, p, s.Inodes(p)[k].pgid) && Whole(s, [s.Inodes(p)[i].pgid], h - 1)
  {
    hide Layered, TreeIds, Distinct, Apart;
    var kids, g := KidsOf(s, p), h - 1;
    var c, d := kids[i], kids[k];
    KidSubtrees(s, p, h, i);
    ApartFrom(s, kids, g, i, k);
    TopIn(s, d, g);
    forall q | q in TreeIds(s, [c], g) ensures q != p && q != d { assert Inside(s, c, g, p, h); }
  }

  lemma LooksUnder(s: Store, t: Store, p: Pgid, left: Pgid, right: Pgid, c: Pgid, h: nat)
    requires Looks(s, t, p, left, right, s.Inodes(left) + s.Inodes(right)) && (c == left || c == right)
    requires ClearOf(s, c, h, p, if c == left then right else left)
    ensures AgreeUnder(s, t, c, h)
  {
  }

  // A merge or a drop leaves a sound store in which the parent is the one that may be short of inodes.
  lemma {:induction false} MergeKeeps(s: Store, t: Store, root: Pgid, h: nat, weak: Option<Pgid>, p: Pgid, j: nat, left: Pgid)
    requires Merges(s, t, root, h, weak, p, j, left)
    ensures Sound(t, root, h, Some(p)) && Ready(t, root, p)
    ensures Leaves(t, [root], h) == Leaves(s, [root], h)
    ensures multiset(TreeIds(s, [root], h)) == multiset(TreeIds(t, [root], h)) + multiset{KidsOf(s, p)[j]}
    ensures |TreeIds(t, [root], h)| < |TreeIds(s, [root], h)|
  {
    hide Bounded, Layered, TreeIds, LinkedUp, Stocked, Distinct, Entries, Leaves, Unhooks, Looks;
    var right := KidsOf(s, p)[j];
    var x, y := UnhookKeeps(s, t, root, h, weak, p, j, left);
    UnhookBounded(s, t, root, h, weak, p, j, left);
    WithoutOne(x, right, y);
    UnhooksBranch(s, t, p, j, left);
    KidInTree(s, [root], h, p, right);
    KidsDiffer(s, [root], h, p);
    RootStays(s, t, root, h, weak, p, j, left);
    MergeLinked(s, t, root, h, weak, p, j, left, x + y);
    MergeStocked(s, t, root, h, weak, p, j, left, x + y);
  }

  lemma {:induction false} RootStays(s: Store, t: Store, root: Pgid, h: nat, weak: Option<Pgid>, p: Pgid, j: nat, left: Pgid)
    requires Merges(s, t, root, h, weak, p, j, left)
    ensures root in t.nodes ==> t.nodes[root].parent == None
    ensures p in t.nodes && t.nodes[p].unbalanced
  {
    hide Bounded, Layered, TreeIds, LinkedUp, Distinct, Entries, Looks;
    var all, right := TreeIds(s, [root], h), KidsOf(s, p)[j];
    KidInTree(s, [root], h, p, right);
    KidsDiffer(s, [root], h, p);
    if root in KidsOf(s, right) {
      assert StockedAt(s, root, weak, all, right);
      RootOnTop(s, root, h);
      if !s.IsLeaf(right) { KidInTree(s, [root], h, right, root); }
    }
  }

  lemma RootOnTop(s: Store, root: Pgid, h: nat)
    ensures root in TreeIds(s, [root], h)
  {
    assert root in [root];
  }

  lemma {:induction false} MergeLinked(s: Store, t: Store, root: Pgid, h: nat, weak: Option<Pgid>, p: Pgid, j: nat, left: Pgid, ids: seq<Pgid>)
    requires Merges(s, t, root, h, weak, p, j, left)
    requires forall q :: q in ids ==> q in TreeIds(s, [root], h) && q != KidsOf(s, p)[j]
    ensures LinkedUp(t, ids)
  {
    hide Merges, TreeIds, Link;
    forall q, i | q in ids && !t.IsLeaf(q) && 0 <= i < |t.Inodes(q)| ensures Link(t, q, i) {
      MergeLinks(s, t, root, h, weak, p, j, left, q, i);
    }
  }

  lemma {:induction false} MergeStocked(s: Store, t: Store, root: Pgid, h: nat, weak: Option<Pgid>, p: Pgid, j: nat, left: Pgid, ids: seq<Pgid>)
    requires Merges(s, t, root, h, weak, p, j, left)
    requires forall q :: q in ids ==> q in TreeIds(s, [root], h) && q != KidsOf(s, p)[j]
    ensures Stocked(t, root, Some(p), ids)
  {
    hide Merges, TreeIds, StockedAt;
    forall q | q in ids ensures StockedAt(t, root, Some(p), ids, q) {
      MergeStocks(s, t, root, h, weak, p, j, left, ids, q);
    }
  }

  lemma {:induction false} SiblingsAlike(s: Store, ps: seq<Pgid>, h: nat, p: Pgid, c: Pgid, d: Pgid)
    requires Layered(s, ps, h) && p in TreeIds(s, ps, h) && !s.IsLeaf(p) && c in KidsOf(s, p) && d in KidsOf(s, p)
    ensures s.IsLeaf(c) == s.IsLeaf(d)
    decreases h
  {
    hide Entries, Layered;
    LayeredBelow(s, ps, h);
    LayeredBelow(s, Kids(s, ps), h - 1);
    if p in ps {
      KidOfLevel(s, ps, p, c);
      KidOfLevel(s, ps, p, d);
    } else {
      SiblingsAlike(s, Kids(s, ps), h - 1, p, c, d);
    }
  }

  lemma MergedHands(s: Store, p: Pgid, left: Pgid, right: Pgid)
    requires p in s.nodes && left in s.nodes && right in s.nodes && left != right && left != p && right != p
    ensures Hands(s, s.(nodes := MergedCache(s, p, left, right)), p, left, right)
  {
    hide Removed, Reparented;
    ReparentedIs(s.nodes, KidsOf(s, right), left);
  }

  lemma {:induction false} MergedMerges(s: Store, root: Pgid, h: nat, weak: Option<Pgid>, p: Pgid, j: nat)
    requires Sound(s, root, h, weak) && Neighbours(s, root, h, p, j) && weak != Some(p)
    requires var left, right := s.Inodes(p)[j - 1].pgid, s.Inodes(p)[j].pgid;
      (weak == Some(left) || weak == Some(right)) && s.Inodes(left) + s.Inodes(right) != []
    ensures var left, right := s.Inodes(p)[j - 1].pgid, s.Inodes(p)[j].pgid;
      Merges(s, s.(nodes := MergedCache(s, p, left, right)), root, h, weak, p, j, left)
  {
    hide Bounded, Layered, TreeIds, LinkedUp, Stocked, Distinct, Unhooks, Looks, Hands, MergedCache;
    var left, right := s.Inodes(p)[j - 1].pgid, s.Inodes(p)[j].pgid;
    assert KidsOf(s, p)[j - 1] == left && KidsOf(s, p)[j] == right;
    MergeUnhooks(s, root, h, weak, p, j);
    MergedLooks(s, p, left, right);
    MergedHands(s, p, left, right);
    SiblingsAlike(s, [root], h, p, left, right);
  }

  // What dropping a node without inodes makes of the cache.
  ghost function Dropped(s: Store, p: Pgid, n: Pgid): map<Pgid, Cached>
    requires p in s.nodes && n in s.nodes
  {
    s.nodes[p := s.nodes[p].(inodes := Removed(s.nodes[p].inodes, s.nodes[n].key), unbalanced := true)] - {n}
  }

  lemma DroppedLooks(s: Store, p: Pgid, n: Pgid)
    requires p in s.nodes && n in s.nodes && n != p && s.Inodes(n) == []
    ensures var t := s.(nodes := Dropped(s, p, n));
      Looks(s, t, p, n, n, []) && Hands(s, t, p, n, n)
  {
    hide Removed;
  }

  lemma {:induction false} DroppedMerges(s: Store, root: Pgid, h: nat, p: Pgid, j: nat, n: Pgid)
    requires Sound(s, root, h, Some(n)) && p in TreeIds(s, [root], h) && p in s.nodes && n in s.nodes
    requires !s.IsLeaf(p) && j < |s.Inodes(p)| && KidsOf(s, p)[j] == n && s.Inodes(n) == []
    ensures Merges(s, s.(nodes := Dropped(s, p, n)), root, h, Some(n), p, j, n)
  {
    hide Bounded, Layered, TreeIds, LinkedUp, Stocked, Distinct, Hands, Dropped, Removed, Ascending;
    KidsDiffer(s, [root], h, p);
    DroppedLooks(s, p, n);
    LinkAt(s, root, h, Some(n), p, j);
    BranchKeysAscend(s, root, h, p);
    RemovedAt(s.Inodes(p), j);
    DroppedEntries(s, s.(nodes := Dropped(s, p, n)), p, j, n);
  }

  lemma {:induction false} DroppedEntries(s: Store, t: Store, p: Pgid, j: nat, n: Pgid)
    requires j < |s.Inodes(p)| && KidsOf(s, p)[j] == n && s.Inodes(n) == []
    requires !s.IsLeaf(p) && p != n
    requires Removed(s.Inodes(p), s.KeyOf(n)) == s.Inodes(p)[..j] + s.Inodes(p)[j + 1..]
    requires Looks(s, t, p, n, n, [])
    ensures Unhooks(s, t, p, j, n)
  {
    hide Removed;
    var inodes, r := s.Inodes(p), Unhooking(s, p, j, n);
    assert r.Block(s) == [inodes[j]];
    assert Pgids(r.Block(s)) == [n] && Pgids(r.with) == [];
    assert inodes[..j] + [] == inodes[..j];
    EntriesOfOne(s, n);
  }

  // What collapsing the root makes of the cache.
  function Collapsed(s: Store, root: Pgid, child: Pgid): map<Pgid, Cached>
    requires root in s.nodes && child in s.nodes
  {
    var m := s.nodes[root := s.nodes[root].(isLeaf := s.nodes[child].isLeaf, inodes := s.nodes[child].inodes)];
    Reparented(m, KidsOf(s, child), root) - {child}
  }

  lemma {:induction false} CollapsedLooks(s: Store, root: Pgid, child: Pgid)
    requires root in s.nodes && child in s.nodes && root != child && KidsOf(s, root) == [child]
    ensures var t := s.(nodes := Collapsed(s, root, child));
      && Collapses(s, t, root, child)
      && t.nodes.Keys == s.nodes.Keys - {child}
      && forall q :: q in t.nodes ==>
        && t.nodes[q].key == s.nodes[q].key && t.nodes[q].unbalanced == s.nodes[q].unbalanced
        && t.nodes[q].parent == if q in KidsOf(s, child) then Some(root) else s.nodes[q].parent
  {
    hide Reparented;
    var m := s.nodes[root := s.nodes[root].(isLeaf := s.nodes[child].isLeaf, inodes := s.nodes[child].inodes)];
    ReparentedIs(m, KidsOf(s, child), root);
  }

  // The store when a root with one child is to be collapsed.
  ghost predicate OneChild(s: Store, root: Pgid, h: nat, child: Pgid) {
    && Sound(s, root, h, Some(root)) && root in s.nodes && child in s.nodes
    && !s.IsLeaf(root) && KidsOf(s, root) == [child]
  }

  lemma {:induction false} ChildsKids(s: Store, root: Pgid, h: nat, child: Pgid, q: Pgid, c: Pgid)
    requires OneChild(s, root, h, child) && q in TreeIds(s, [root], h) && !s.IsLeaf(q) && c in KidsOf(s, q)
    ensures child != root && c != root && root !in KidsOf(s, child)
    ensures c == child ==> q == root
    ensures c in KidsOf(s, child) ==> q == child
  {
    hide Bounded, Layered, TreeIds, LinkedUp, Distinct;
    assert child in KidsOf(s, root);
    RootOnTop(s, root, h);
    KidInTree(s, [root], h, root, child);
    KidInTree(s, [root], h, q, c);
    assert StockedAt(s, root, Some(root), TreeIds(s, [root], h), child);
    if c == child { OneParent(s, [root], h, q, root, child); }
    if c in KidsOf(s, child) && !s.IsLeaf(child) { OneParent(s, [root], h, q, child, c); }
    if root in KidsOf(s, child) && !s.IsLeaf(child) { KidInTree(s, [root], h, child, root); }
  }

  lemma {:induction false} CollapsedLinks(s: Store, root: Pgid, h: nat, child: Pgid, q: Pgid, i: nat)
    requires OneChild(s, root, h, child) && q in TreeIds(s, [root], h) && q != child && child in TreeIds(s, [root], h)
    requires child != root
    requires var t := s.(nodes := Collapsed(s, root, child)); !t.IsLeaf(q) && i < |t.Inodes(q)|
    ensures Link(s.(nodes := Collapsed(s, root, child)), q, i)
  {
    hide Bounded, Layered, TreeIds, LinkedUp, Distinct, Collapsed, Stocked;
    var t := s.(nodes := Collapsed(s, root, child));
    CollapsedLooks(s, root, child);
    var q' := if q == root then child else q;
    LinkAt(s, root, h, Some(root), q', i);
    assert KidsOf(s, q')[i] == t.Inodes(q)[i].pgid;
    ChildsKids(s, root, h, child, q', t.Inodes(q)[i].pgid);
  }

  lemma {:induction false} CollapsedKeeps(s: Store, root: Pgid, h: nat, child: Pgid)
    requires OneChild(s, root, h, child)
    ensures child != root && child != 0
    ensures var t := s.(nodes := Collapsed(s, root, child));
      && h > 0 && Sound(t, root, h - 1, None)
      && Leaves(t, [root], h - 1) == Leaves(s, [root], h)
      && multiset(TreeIds(s, [root], h)) == multiset(TreeIds(t, [root], h - 1)) + multiset{child}
  {
    hide Bounded, Layered, TreeIds, LinkedUp, Distinct, Collapsed, Stocked, Leaves, Link;
    var t := s.(nodes := Collapsed(s, root, child));
    assert child in KidsOf(s, root);
    RootOnTop(s, root, h);
    ChildsKids(s, root, h, child, root, child);
    CollapsedLooks(s, root, child);
    CollapseKeeps(s, t, root, h, child);
    CollapseBounded(s, t, root, h, child);
    var all, ids := TreeIds(s, [root], h), TreeIds(t, [root], h - 1);
    assert ids == [root] + ids[1..];
    WithoutOne([root], child, ids[1..]);
    KidInTree(s, [root], h, root, child);
    NotZero(s, root, h, Some(root), child);
    CollapsedLinked(s, root, h, child, ids);
    CollapsedStocked(s, root, h, child, ids);
  }

  lemma NotZero(s: Store, root: Pgid, h: nat, weak: Option<Pgid>, p: Pgid)
    requires Sound(s, root, h, weak) && p in TreeIds(s, [root], h) && p != root
    ensures p != 0
  {
    assert StockedAt(s, root, weak, TreeIds(s, [root], h), p);
  }

  lemma {:induction false} CollapsedLinked(s: Store, root: Pgid, h: nat, child: Pgid, ids: seq<Pgid>)
    requires OneChild(s, root, h, child) && child in TreeIds(s, [root], h) && child != root
    requires forall q :: q in ids ==> q in TreeIds(s, [root], h) && q != child
    ensures LinkedUp(s.(nodes := Collapsed(s, root, child)), ids)
  {
    hide Sound, TreeIds, Link, Collapsed;
    var t := s.(nodes := Collapsed(s, root, child));
    forall q, i | q in ids && !t.IsLeaf(q) && 0 <= i < |t.Inodes(q)| ensures Link(t, q, i) {
      CollapsedLinks(s, root, h, child, q, i);
    }
  }

  lemma {:induction false} CollapsedStocked(s: Store, root: Pgid, h: nat, child: Pgid, ids: seq<Pgid>)
    requires OneChild(s, root, h, child) && child in TreeIds(s, [root], h) && child != root
    requires forall q :: q in ids ==> q in TreeIds(s, [root], h) && q != child
    ensures Stocked(s.(nodes := Collapsed(s, root, child)), root, None, ids)
  {
    hide TreeIds, LinkedUp, Collapsed, Layered, Distinct, Bounded;
    var t := s.(nodes := Collapsed(s, root, child));
    CollapsedLooks(s, root, child);
    var all := TreeIds(s, [root], h);
    assert StockedAt(s, root, Some(root), all, child);
    forall q | q in ids ensures StockedAt(t, root, None, ids, q) {
      assert StockedAt(s, root, Some(root), all, q);
    }
  }

  // The cached parent of a cached node, and the node's place in it.
  lemma {:induction false} ParentOf(s: Store, root: Pgid, h: nat, weak: Option<Pgid>, n: Pgid) returns (j: nat)
    requires Sound(s, root, h, weak) && n in s.nodes
    ensures s.nodes[n].parent.None? <==> n == root
    ensures n != root ==>
      var p := s.nodes[n].parent.value;
      && p in TreeIds(s, [root], h) && p in s.nodes && !s.IsLeaf(p) && p != n
      && j < |s.Inodes(p)| && s.Inodes(p)[j].pgid == n && s.Inodes(p)[j].key == s.nodes[n].key
  {
    hide Bounded, Layered, TreeIds, LinkedUp, Stocked, Distinct;
    j := 0;
    if n != root {
      HasParent(s, [root], h, n);
      var p :| p in TreeIds(s, [root], h) && !s.IsLeaf(p) && n in KidsOf(s, p);
      var i :| 0 <= i < |s.Inodes(p)| && KidsOf(s, p)[i] == n;
      j := i;
      LinkAt(s, root, h, weak, p, j);
      KidsDiffer(s, [root], h, p);
    }
  }

  function Cleared(s: Store, n: Pgid): map<Pgid, Cached>
    requires n in s.nodes
  {
    s.nodes[n := s.nodes[n].(unbalanced := false)]
  }

  // Clearing the mark of the weak node changes nothing else.
  lemma {:induction false} ClearedKeeps(s: Store, root: Pgid, h: nat, n: Pgid)
    requires Sound(s, root, h, Some(n)) && n in s.nodes
    ensures var t := s.(nodes := Cleared(s, n));
      && Sound(t, root, h, Some(n)) && Leaves(t, [root], h) == Leaves(s, [root], h) && TreeIds(t, [root], h) == TreeIds(s, [root], h)
  {
    hide Bounded, Layered, TreeIds, Leaves, Distinct, LinkedUp, Stocked;
    var t, ids := s.(nodes := Cleared(s, n)), TreeIds(s, [root], h);
    LevelFrame(s, t, [root], h);
    BoundedFrame(s, t, root, h, None, None);
    ClearedLinked(s, n, ids);
    ClearedStocked(s, root, n, ids);
  }

  lemma ClearedLinked(s: Store, n: Pgid, ids: seq<Pgid>)
    requires n in s.nodes && LinkedUp(s, ids)
    ensures LinkedUp(s.(nodes := Cleared(s, n)), ids)
  {
    var t := s.(nodes := Cleared(s, n));
    forall q, k | q in ids && !t.IsLeaf(q) && 0 <= k < |t.Inodes(q)| ensures Link(t, q, k) { assert Link(s, q, k); }
  }

  lemma ClearedStocked(s: Store, root: Pgid, n: Pgid, ids: seq<Pgid>)
    requires n in s.nodes && Stocked(s, root, Some(n), ids)
    ensures Stocked(s.(nodes := Cleared(s, n)), root, Some(n), ids)
  {
    var t := s.(nodes := Cleared(s, n));
    forall q | q in ids ensures StockedAt(t, root, Some(n), ids, q) { assert StockedAt(s, root, Some(n), ids, q); }
  }

  lemma {:induction false} Strong(s: Store, root: Pgid, h: nat, n: Pgid)
    requires Sound(s, root, h, Some(n)) && n in s.nodes
    requires !s.nodes[n].isLeaf ==> |s.nodes[n].inodes| >= 2
    requires n != root && s.nodes[n].inodes == [] ==> s.nodes[n].unbalanced
    ensures Sound(s, root, h, None)
  {
    hide Bounded, Layered, TreeIds, Distinct, LinkedUp;
    var ids := TreeIds(s, [root], h);
    forall q | q in ids ensures StockedAt(s, root, None, ids, q) { assert StockedAt(s, root, Some(n), ids, q); }
  }

  lemma {:induction false} Weaken(s: Store, root: Pgid, h: nat, n: Pgid)
    requires Sound(s, root, h, None)
    ensures Sound(s, root, h, Some(n)) && (n in s.nodes ==> Ready(s, root, n))
  {
    hide Bounded, Layered, TreeIds, Distinct, LinkedUp;
    var ids := TreeIds(s, [root], h);
    forall q | q in ids ensures StockedAt(s, root, Some(n), ids, q) { assert StockedAt(s, root, None, ids, q); }
    if n in s.nodes { assert StockedAt(s, root, None, ids, n); }
  }

  // The pages of the tree and those given back so far.
  ghost function Pages(s: Store, root: Pgid, h: nat, freed: seq<Pgid>): multiset<Pgid> {
    multiset(TreeIds(s, [root], h)) + multiset(freed)
  }

  ghost predicate EmptyAt(s: Store, q: Pgid) {
    q in s.nodes && s.nodes[q].inodes == []
  }

  // All that the merge of two siblings does.
  lemma {:induction false} MergeEffect(s: Store, root: Pgid, h: nat, weak: Option<Pgid>, p: Pgid, j: nat)
    requires Sound(s, root, h, weak) && Neighbours(s, root, h, p, j) && weak != Some(p)
    requires var left, right := s.Inodes(p)[j - 1].pgid, s.Inodes(p)[j].pgid;
      (weak == Some(left) || weak == Some(right)) && s.Inodes(left) + s.Inodes(right) != []
    ensures var left, right := s.Inodes(p)[j - 1].pgid, s.Inodes(p)[j].pgid;
      var t := s.(nodes := MergedCache(s, p, left, right));
      && left != right && left != p && right != p && right != 0 && right != root && Ascending(InodeKeys(s.nodes[p].inodes))
      && Sound(t, root, h, Some(p)) && Ready(t, root, p)
      && left in t.nodes && t.nodes[left].inodes != [] && t.nodes.Keys == s.nodes.Keys - {right}
      && Leaves(t, [root], h) == Leaves(s, [root], h)
      && multiset(TreeIds(s, [root], h)) == multiset(TreeIds(t, [root], h)) + multiset{right}
      && |TreeIds(t, [root], h)| < |TreeIds(s, [root], h)|
      && forall q :: EmptyAt(t, q) ==> EmptyAt(s, q)
  {
    hide Sound, Leaves, TreeIds, Merges, Removed, Reparented, Unhooks, MergedCache, Ascending;
    var left, right := s.Inodes(p)[j - 1].pgid, s.Inodes(p)[j].pgid;
    var t := s.(nodes := MergedCache(s, p, left, right));
    MergeUnhooks(s, root, h, weak, p, j);
    MergedMerges(s, root, h, weak, p, j);
    MergeKeeps(s, t, root, h, weak, p, j, left);
    InTree(s, root, h, weak, p);
    BranchKeysAscend(s, root, h, p);
    RightIsPage(s, root, h, weak, p, j);
    MergedHands(s, p, left, right);
    MergedLooks(s, p, left, right);
    BranchHasInodes(t, root, h, Some(p), p);
    forall q | EmptyAt(t, q) ensures EmptyAt(s, q) {
      assert t.Inodes(q) == t.nodes[q].inodes;
    }
  }

  lemma Accounted(s: Store, t: Store, root: Pgid, h: nat, n: Pgid, freed: seq<Pgid>)
    requires multiset(TreeIds(s, [root], h)) == multiset(TreeIds(t, [root], h)) + multiset{n}
    ensures Pages(t, root, h, freed + [n]) == Pages(s, root, h, freed)
  {
    hide TreeIds;
  }

  lemma BranchHasInodes(s: Store, root: Pgid, h: nat, weak: Option<Pgid>, p: Pgid)
    requires Sound(s, root, h, weak) && p in s.nodes && !s.nodes[p].isLeaf
    ensures |s.nodes[p].inodes| >= if weak == Some(p) then 1 else 2
  {
    assert StockedAt(s, root, weak, TreeIds(s, [root], h), p);
  }

  lemma RightIsPage(s: Store, root: Pgid, h: nat, weak: Option<Pgid>, p: Pgid, j: nat)
    requires Sound(s, root, h, weak) && p in TreeIds(s, [root], h) && !s.IsLeaf(p) && j < |s.Inodes(p)|
    ensures s.Inodes(p)[j].pgid != 0 && s.Inodes(p)[j].pgid != root
    ensures s.KeyOf(s.Inodes(p)[j].pgid) == s.Inodes(p)[j].key
  {
    hide TreeIds, Layered, Bounded;
    var c := s.Inodes(p)[j].pgid;
    assert KidsOf(s, p)[j] == c;
    KidInTree(s, [root], h, p, c);
    NotZero(s, root, h, weak, c);
    LinkAt(s, root, h, weak, p, j);
  }

  lemma InTree(s: Store, root: Pgid, h: nat, weak: Option<Pgid>, n: Pgid)
    requires Sound(s, root, h, weak) && n in s.nodes
    ensures n in TreeIds(s, [root], h) && Whole(s, [root], h) && Bounded(s, root, h, None, None)
  {
  }
}
