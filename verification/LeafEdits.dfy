// Puts and deletes in a cached leaf (environment/bbolt/bucket.go, environment/bbolt/cursor.go): finding
// the leaf by the separators, and what its new inodes make of the whole bucket.
module LeafEdits {
  import opened Bounds
  import opened Inodes
  import opened Keys
  import opened Levels
  import opened Nodes
  import opened Options
  import opened PageIds
  import opened Rebalance
  import Buckets

  // The kid that a search goes to: the last one whose key is not above the wanted one, or the first.
  ghost predicate Chosen(inodes: seq<Inode>, key: Key, i: nat) {
    && i < |inodes|
    && (i > 0 ==> AtMost(inodes[i].key, key))
    && (i + 1 < |inodes| ==> Less(key, inodes[i + 1].key))
  }

  // The indexes that lead a search from q to the leaf n.
  ghost predicate LeadsTo(s: Store, q: Pgid, h: nat, key: Key, path: seq<nat>, n: Pgid)
    decreases h
  {
    if h == 0 then path == [] && q == n
    else path != [] && Chosen(s.Inodes(q), key, path[0]) && LeadsTo(s, s.Inodes(q)[path[0]].pgid, h - 1, key, path[1..], n)
  }

  // Until the commit, a cached branch starts with the key by which its parent knows it.
  ghost predicate Aligned(nodes: map<Pgid, Cached>) {
    forall p :: p in nodes && !nodes[p].isLeaf ==> nodes[p].key == FirstKey(nodes[p].inodes)
  }

  ghost predicate SameNodes(s: Store, t: Store) {
    forall q :: t.Inodes(q) == s.Inodes(q) && t.IsLeaf(q) == s.IsLeaf(q)
  }

  lemma {:induction false} LeadsFrame(s: Store, t: Store, q: Pgid, h: nat, key: Key, path: seq<nat>, n: Pgid)
    requires SameNodes(s, t) && LeadsTo(s, q, h, key, path, n)
    ensures LeadsTo(t, q, h, key, path, n)
    decreases h
  {
    if h > 0 { LeadsFrame(s, t, s.Inodes(q)[path[0]].pgid, h - 1, key, path[1..], n); }
  }

  // The leaf n gets other inodes; nothing else changes.
  ghost predicate OneLeaf(s: Store, t: Store, n: Pgid) {
    && s.IsLeaf(n)
    && forall q :: t.IsLeaf(q) == s.IsLeaf(q) && (q != n ==> t.Inodes(q) == s.Inodes(q))
  }

  // Inodes in order that differ from others under one key at most.
  ghost predicate Edited(was: seq<Inode>, now: seq<Inode>, key: Key) {
    && Ascending(InodeKeys(now))
    && forall e :: e in now ==> e in was || (e.key == key && e.pgid == 0 && key != [])
  }

  // The levels above the leaves stay.
  lemma {:induction false} LeafFrame(s: Store, t: Store, ps: seq<Pgid>, h: nat, n: Pgid)
    requires OneLeaf(s, t, n) && Layered(s, ps, h)
    ensures TreeIds(t, ps, h) == TreeIds(s, ps, h) && Layered(t, ps, h)
    decreases h
  {
    hide Entries;
    if h > 0 {
      EntriesFrame(s, t, ps);
      LeafFrame(s, t, Kids(s, ps), h - 1, n);
    }
  }

  // The leaves under the kids from an index on.
  lemma {:induction false} KidLeavesFrom(s: Store, q: Pgid, h: nat, lo: Option<Key>, hi: Option<Key>, i: nat, key: Key)
    requires Whole(s, [q], h) && h > 0 && Bounded(s, q, h, lo, hi) && 0 < i <= |s.Inodes(q)|
    requires forall k :: i <= k < |s.Inodes(q)| ==> Less(key, s.Inodes(q)[k].key)
    ensures AllAbove(Leaves(s, KidsOf(s, q)[i..], h - 1), key)
    decreases |s.Inodes(q)| - i
  {
    hide Less, Layered, TreeIds, Distinct, Leaves, Whole, Apart, Inside;
    var kids, inodes := KidsOf(s, q), s.Inodes(q);
    if i == |inodes| {
      assert kids[i..] == [];
      NoLeaves(s, h - 1);
    } else {
      KidLeavesFrom(s, q, h, lo, hi, i + 1, key);
      KidSubtrees(s, q, h, i);
      assert KidBounded(s, inodes, i, h, lo, hi) && kids[i] == inodes[i].pgid;
      BoundedLeaves(s, kids[i], h - 1, LowerAt(inodes, i, lo), UpperAt(inodes, i, hi));
      assert kids[i..] == [kids[i]] + kids[i + 1..];
      LeavesConcat(s, [kids[i]], kids[i + 1..], h - 1);
      forall e | e in Leaves(s, [kids[i]], h - 1) ensures Less(key, e.key) { Chain(key, inodes[i].key, e.key); }
    }
  }

  // The kids beside the one that holds the leaf.
  lemma {:induction false} KidsBeside(s: Store, t: Store, kids: seq<Pgid>, h: nat, i: nat, n: Pgid, others: seq<Pgid>)
    requires OneLeaf(s, t, n) && i < |kids| && Apart(s, kids, h, i) && n in TreeIds(s, [kids[i]], h)
    requires forall q :: q in others ==> exists j :: 0 <= j < |kids| && j != i && kids[j] == q
    ensures Agree(s, t, TreeIds(s, others, h))
  {
    hide TreeIds;
    forall k | 0 <= k < |others| ensures n !in TreeIds(s, [others[k]], h) {
      assert others[k] in others;
      var j :| 0 <= j < |kids| && j != i && kids[j] == others[k];
      ApartFrom(s, kids, h, i, j);
    }
    NotUnder(s, others, h, n);
  }

  lemma NotUnder(s: Store, ps: seq<Pgid>, h: nat, n: Pgid)
    requires forall k :: 0 <= k < |ps| ==> n !in TreeIds(s, [ps[k]], h)
    ensures n !in TreeIds(s, ps, h)
  {
    hide TreeIds;
    if n in TreeIds(s, ps, h) { var k := PartOver(s, ps, h, n); }
  }

  lemma ChosenBounds(inodes: seq<Inode>, key: Key, i: nat, lo: Option<Key>, hi: Option<Key>)
    requires Chosen(inodes, key, i) && AtLeast(key, lo) && Beneath(key, hi)
    requires lo.Some? ==> FirstKey(inodes) == lo.value
    ensures AtLeast(key, LowerAt(inodes, i, lo)) && Beneath(key, UpperAt(inodes, i, hi))
  {
  }

  lemma EditedWithin(was: seq<Inode>, now: seq<Inode>, key: Key, lo: Option<Key>, hi: Option<Key>)
    requires KeysWithin(was, lo, hi) && Edited(was, now, key) && AtLeast(key, lo) && Beneath(key, hi)
    ensures KeysWithin(now, lo, hi)
  {
    hide Less, Ascending;
  }

  // A branch starts with the key that leads to it.
  lemma KidStart(s: Store, q: Pgid, i: nat, ids: seq<Pgid>)
    requires LinkedUp(s, ids) && Aligned(s.nodes) && q in ids && !s.IsLeaf(q) && i < |s.Inodes(q)|
    ensures var e := s.Inodes(q)[i]; !s.IsLeaf(e.pgid) ==> FirstKey(s.Inodes(e.pgid)) == e.key
  {
    assert Link(s, q, i);
  }

  lemma LeavesOfOne(s: Store, q: Pgid, h: nat)
    requires h > 0
    ensures Leaves(s, [q], h) == Leaves(s, KidsOf(s, q), h - 1)
  {
    EntriesOfOne(s, q);
  }

  lemma {:induction false} LeavesAround(s: Store, kids: seq<Pgid>, h: nat, i: nat)
    requires i < |kids|
    ensures Leaves(s, kids, h) == Leaves(s, kids[..i], h) + Leaves(s, [kids[i]], h) + Leaves(s, kids[i + 1..], h)
  {
    hide Leaves;
    LeavesConcat(s, kids[..i] + [kids[i]], kids[i + 1..], h);
    LeavesConcat(s, kids[..i], [kids[i]], h);
    assert kids == kids[..i] + [kids[i]] + kids[i + 1..];
  }

  lemma TopIsBranch(s: Store, q: Pgid, h: nat)
    requires Whole(s, [q], h)
    ensures s.IsLeaf(q) <==> h == 0
  {
    hide TreeIds, Distinct;
    assert q in [q];
  }

  // A search from q ends in the leaf between whose neighbours the key belongs; and the edited leaf keeps
  // every node in its bounds.
  lemma {:induction false} EditUnder(s: Store, t: Store, q: Pgid, h: nat, lo: Option<Key>, hi: Option<Key>, key: Key,
      path: seq<nat>, n: Pgid, ids: seq<Pgid>) returns (a: seq<Inode>, b: seq<Inode>)
    requires Whole(s, [q], h) && Bounded(s, q, h, lo, hi) && LeadsTo(s, q, h, key, path, n)
    requires AtLeast(key, lo) && Beneath(key, hi) && (h > 0 && lo.Some? ==> FirstKey(s.Inodes(q)) == lo.value)
    requires LinkedUp(s, ids) && Aligned(s.nodes) && forall p :: p in TreeIds(s, [q], h) ==> p in ids
    requires OneLeaf(s, t, n) && Edited(s.Inodes(n), t.Inodes(n), key)
    ensures n in TreeIds(s, [q], h) && AllBelow(a, key) && AllAbove(b, key)
    ensures Leaves(s, [q], h) == a + s.Inodes(n) + b && Leaves(t, [q], h) == a + t.Inodes(n) + b
    ensures Bounded(t, q, h, lo, hi)
    decreases h
  {
    hide Less, Ascending, Layered, TreeIds, Distinct, Apart, Whole, LinkedUp, Aligned, Edited, OneLeaf, Leaves, Chosen, AllBelow, AllAbove;
    a, b := [], [];
    TopIn(s, q, h);
    TopIsBranch(s, q, h);
    if h == 0 {
      EditedWithin(s.Inodes(n), t.Inodes(n), key, lo, hi);
      LeafAlone(s, n);
      LeafAlone(t, n);
      NothingBeside(key, s.Inodes(n));
      NothingBeside(key, t.Inodes(n));
    } else {
      var i, kids, inodes := path[0], KidsOf(s, q), s.Inodes(q);
      ChosenIndex(inodes, key, i);
      var kid := inodes[i].pgid;
      KidSubtrees(s, q, h, i);
      TopIsBranch(s, kid, h - 1);
      KidStart(s, q, i, ids);
      ChosenBounds(inodes, key, i, lo, hi);
      assert KidBounded(s, inodes, i, h, lo, hi) && kids[i] == kid;
      var a', b' := EditUnder(s, t, kid, h - 1, LowerAt(inodes, i, lo), UpperAt(inodes, i, hi), key, path[1..], n, ids);
      EditBeside(s, t, q, h, lo, hi, key, i, n);
      var left, right := Leaves(s, kids[..i], h - 1), Leaves(s, kids[i + 1..], h - 1);
      Beside(left, a', b', right, key);
      Widened(Leaves(s, [q], h), Leaves(s, [kid], h - 1), left, a', s.Inodes(n), b', right);
      Widened(Leaves(t, [q], h), Leaves(t, [kid], h - 1), left, a', t.Inodes(n), b', right);
      a, b := left + a', b' + right;
    }
  }

  lemma NothingBeside(key: Key, inodes: seq<Inode>)
    ensures AllBelow([], key) && AllAbove([], key) && inodes == [] + inodes + []
  {
  }

  lemma Beside(a: seq<Inode>, b: seq<Inode>, c: seq<Inode>, d: seq<Inode>, key: Key)
    requires AllBelow(a, key) && AllBelow(b, key) && AllAbove(c, key) && AllAbove(d, key)
    ensures AllBelow(a + b, key) && AllAbove(c + d, key)
  {
    hide Less;
  }

  lemma Widened(all: seq<Inode>, kid: seq<Inode>, left: seq<Inode>, a: seq<Inode>, inodes: seq<Inode>, b: seq<Inode>, right: seq<Inode>)
    requires all == left + kid + right && kid == a + inodes + b
    ensures all == (left + a) + inodes + (b + right)
  {
  }

  lemma LeafAlone(s: Store, n: Pgid)
    ensures Leaves(s, [n], 0) == s.Inodes(n)
  {
    EntriesOfOne(s, n);
  }

  lemma ChosenIndex(inodes: seq<Inode>, key: Key, i: nat)
    requires Chosen(inodes, key, i)
    ensures i < |inodes|
  {
  }

  // The rest of the branch over the edited leaf.
  lemma {:induction false} EditBeside(s: Store, t: Store, q: Pgid, h: nat, lo: Option<Key>, hi: Option<Key>, key: Key, i: nat, n: Pgid)
    requires Whole(s, [q], h) && h > 0 && Bounded(s, q, h, lo, hi) && Chosen(s.Inodes(q), key, i)
    requires var kids, inodes := KidsOf(s, q), s.Inodes(q);
      && OneLeaf(s, t, n) && n in TreeIds(s, [kids[i]], h - 1)
      && KidBounded(t, inodes, i, h, lo, hi)
    ensures var kids := KidsOf(s, q); var left, right := Leaves(s, kids[..i], h - 1), Leaves(s, kids[i + 1..], h - 1);
      && AllBelow(left, key) && AllAbove(right, key)
      && Leaves(s, [q], h) == left + Leaves(s, [kids[i]], h - 1) + right
      && Leaves(t, [q], h) == left + Leaves(t, [kids[i]], h - 1) + right
    ensures n in TreeIds(s, [q], h) && Bounded(t, q, h, lo, hi)
  {
    hide Less, Ascending, Layered, TreeIds, Distinct, Apart, Whole, Leaves, OneLeaf, Chosen, Bounded;
    var kids, inodes := KidsOf(s, q), s.Inodes(q);
    ChosenIndex(inodes, key, i);
    BranchStays(s, t, q, h, n);
    KidSubtrees(s, q, h, i);
    KidsBeside(s, t, kids, h - 1, i, n, kids[..i]);
    KidsBeside(s, t, kids, h - 1, i, n, kids[i + 1..]);
    LevelFrame(s, t, kids[..i], h - 1);
    LevelFrame(s, t, kids[i + 1..], h - 1);
    LeavesOfOne(s, q, h);
    LeavesOfOne(t, q, h);
    LeavesAround(s, kids, h - 1, i);
    LeavesAround(t, kids, h - 1, i);
    LeftLeaves(s, q, h, lo, hi, key, i);
    RightLeaves(s, q, h, lo, hi, key, i);
    forall k | 0 <= k < |inodes| ensures KidBounded(t, inodes, k, h, lo, hi) {
      if k != i { KidStays(s, t, q, h, lo, hi, i, k, n); }
    }
    BoundedParts(s, q, h, lo, hi);
    MakeBounded(t, q, h, lo, hi);
  }

  lemma BranchStays(s: Store, t: Store, q: Pgid, h: nat, n: Pgid)
    requires Whole(s, [q], h) && h > 0 && OneLeaf(s, t, n)
    ensures t.Inodes(q) == s.Inodes(q)
  {
    hide TreeIds, Distinct;
    TopIsBranch(s, q, h);
  }

  lemma {:induction false} KidStays(s: Store, t: Store, q: Pgid, h: nat, lo: Option<Key>, hi: Option<Key>, i: nat, k: nat, n: Pgid)
    requires Whole(s, [q], h) && h > 0 && Bounded(s, q, h, lo, hi) && i < |s.Inodes(q)| && k < |s.Inodes(q)| && k != i
    requires OneLeaf(s, t, n) && Apart(s, KidsOf(s, q), h - 1, i) && n in TreeIds(s, [KidsOf(s, q)[i]], h - 1)
    ensures KidBounded(t, s.Inodes(q), k, h, lo, hi)
  {
    hide Layered, TreeIds, Distinct, Apart, Whole, OneLeaf;
    var kids, inodes := KidsOf(s, q), s.Inodes(q);
    KidSubtrees(s, q, h, k);
    KidsBeside(s, t, kids, h - 1, i, n, [kids[k]]);
    assert KidBounded(s, inodes, k, h, lo, hi) && kids[k] == inodes[k].pgid;
    BoundedFrame(s, t, kids[k], h - 1, LowerAt(inodes, k, lo), UpperAt(inodes, k, hi));
  }

  lemma {:induction false} LeftLeaves(s: Store, q: Pgid, h: nat, lo: Option<Key>, hi: Option<Key>, key: Key, i: nat)
    requires Whole(s, [q], h) && h > 0 && Bounded(s, q, h, lo, hi) && Chosen(s.Inodes(q), key, i)
    ensures AllBelow(Leaves(s, KidsOf(s, q)[..i], h - 1), key)
  {
    hide Less, Ascending, Layered, TreeIds, Distinct, Whole, Leaves, Bounded;
    KidLeaves(s, q, h, lo, hi, i);
    if i > 0 {
      forall e | e in Leaves(s, KidsOf(s, q)[..i], h - 1) ensures Less(e.key, key) { Chain(e.key, s.Inodes(q)[i].key, key); }
    }
  }

  lemma {:induction false} RightLeaves(s: Store, q: Pgid, h: nat, lo: Option<Key>, hi: Option<Key>, key: Key, i: nat)
    requires Whole(s, [q], h) && h > 0 && Bounded(s, q, h, lo, hi) && Chosen(s.Inodes(q), key, i)
    ensures AllAbove(Leaves(s, KidsOf(s, q)[i + 1..], h - 1), key)
  {
    hide Less, Layered, TreeIds, Distinct, Whole, Leaves;
    var inodes := s.Inodes(q);
    forall k | i + 1 <= k < |inodes| ensures Less(key, inodes[k].key) {
      assert InodeKeys(inodes)[i + 1] == inodes[i + 1].key && InodeKeys(inodes)[k] == inodes[k].key;
      Chain(key, inodes[i + 1].key, inodes[k].key);
    }
    KidLeavesFrom(s, q, h, lo, hi, i + 1, key);
  }

  // The store with other inodes in a cached leaf.
  function LeafSet(nodes: map<Pgid, Cached>, n: Pgid, inodes: seq<Inode>, unbalanced: bool): map<Pgid, Cached>
    requires n in nodes
  {
    nodes[n := nodes[n].(inodes := inodes, unbalanced := unbalanced)]
  }

  // A put or a delete in the leaf that the search led to: the tree is still sound, with the same pages, and
  // its items change in that one place.
  lemma {:induction false} EditKeeps(s: Store, root: Pgid, h: nat, key: Key, path: seq<nat>, n: Pgid, inodes: seq<Inode>, unbalanced: bool)
    returns (a: seq<Inode>, b: seq<Inode>)
    requires Sound(s, root, h, None) && Aligned(s.nodes) && (root == 0 ==> h == 0)
    requires LeadsTo(s, root, h, key, path, n) && n in s.nodes && s.nodes[n].isLeaf
    requires Edited(s.nodes[n].inodes, inodes, key) && (inodes == [] && n != root ==> unbalanced)
    ensures var t := s.(nodes := LeafSet(s.nodes, n, inodes, unbalanced));
      && Sound(t, root, h, None) && Aligned(t.nodes) && TreeIds(t, [root], h) == TreeIds(s, [root], h)
      && AllBelow(a, key) && AllAbove(b, key) && Ascending(InodeKeys(s.nodes[n].inodes))
      && Leaves(s, [root], h) == a + s.nodes[n].inodes + b
      && Leaves(t, [root], h) == a + inodes + b
  {
    hide Less, Ascending, Layered, TreeIds, Distinct, Bounded, Leaves, Stocked, LinkedUp, Edited;
    var t, ids := s.(nodes := LeafSet(s.nodes, n, inodes, unbalanced)), TreeIds(s, [root], h);
    a, b := EditUnder(s, t, root, h, None, None, key, path, n, ids);
    BranchKeysAscend(s, root, h, n);
    LeafFrame(s, t, [root], h, n);
    EditLinked(s, n, inodes, unbalanced, ids);
    EditStocked(s, root, h, n, inodes, unbalanced, ids, key);
  }

  lemma EditLinked(s: Store, n: Pgid, inodes: seq<Inode>, unbalanced: bool, ids: seq<Pgid>)
    requires LinkedUp(s, ids) && n in s.nodes && s.nodes[n].isLeaf
    ensures LinkedUp(s.(nodes := LeafSet(s.nodes, n, inodes, unbalanced)), ids)
  {
    var t := s.(nodes := LeafSet(s.nodes, n, inodes, unbalanced));
    forall q, k | q in ids && !t.IsLeaf(q) && 0 <= k < |t.Inodes(q)| ensures Link(t, q, k) { assert Link(s, q, k); }
  }

  lemma EditStocked(s: Store, root: Pgid, h: nat, n: Pgid, inodes: seq<Inode>, unbalanced: bool, ids: seq<Pgid>, key: Key)
    requires Stocked(s, root, None, ids) && n in s.nodes && n in ids && s.nodes[n].isLeaf
    requires ids == TreeIds(s, [root], h) && (root == 0 ==> h == 0)
    requires Edited(s.nodes[n].inodes, inodes, key) && (inodes == [] && n != root ==> unbalanced)
    ensures Stocked(s.(nodes := LeafSet(s.nodes, n, inodes, unbalanced)), root, None, ids)
  {
    var t := s.(nodes := LeafSet(s.nodes, n, inodes, unbalanced));
    forall q | q in ids ensures StockedAt(t, root, None, ids, q) {
      assert StockedAt(s, root, None, ids, q);
      if q == n {
        forall c | c in KidsOf(t, n) ensures c == 0 && (n == root || c !in ids) { EditedKid(s, root, h, n, inodes, ids, key, c); }
      }
    }
  }

  lemma EditedKid(s: Store, root: Pgid, h: nat, n: Pgid, inodes: seq<Inode>, ids: seq<Pgid>, key: Key, c: Pgid)
    requires Stocked(s, root, None, ids) && n in s.nodes && n in ids && s.nodes[n].isLeaf
    requires ids == TreeIds(s, [root], h) && (root == 0 ==> h == 0)
    requires Edited(s.nodes[n].inodes, inodes, key) && c in Pgids(inodes)
    ensures c == 0 && (n == root || c !in ids)
  {
    hide Ascending, InodeKeys;
    var was := s.nodes[n].inodes;
    var i :| 0 <= i < |inodes| && Pgids(inodes)[i] == c;
    assert inodes[i] in inodes && inodes[i].pgid == c;
    assert StockedAt(s, root, None, ids, n);
    if inodes[i] in was {
      var k :| 0 <= k < |was| && was[k] == inodes[i];
      assert KidsOf(s, n)[k] == c && c in KidsOf(s, n);
    } else if 0 in ids {
      assert StockedAt(s, root, None, ids, 0);
      assert ids == [root];
    }
  }

  // The step back that follows the binary search in a branch.
  lemma ChosenBySearch(inodes: seq<Inode>, key: Key, r: nat, exact: bool)
    requires inodes != [] && Ascending(InodeKeys(inodes)) && r <= |inodes|
    requires forall i :: 0 <= i < r ==> Less(inodes[i].key, key)
    requires forall i :: r <= i < |inodes| ==> AtMost(key, inodes[i].key)
    requires exact <==> r < |inodes| && inodes[r].key == key
    ensures Chosen(inodes, key, if !exact && r > 0 then r - 1 else r)
  {
    hide Less;
    if r + 1 < |inodes| {
      assert Less(InodeKeys(inodes)[r], InodeKeys(inodes)[r + 1]);
      Chain(key, inodes[r].key, inodes[r + 1].key);
    }
  }

  lemma {:induction false} SearchKid(s: Store, root: Pgid, height: nat, q: Pgid, h: nat)
    requires Sound(s, root, height, None) && q in TreeIds(s, [root], height) && Whole(s, [q], h) && !s.IsLeaf(q)
    ensures h > 0 && s.Inodes(q) != [] && Ascending(InodeKeys(s.Inodes(q)))
    ensures forall e :: e in s.Inodes(q) ==>
      e.pgid in TreeIds(s, [root], height) && Whole(s, [e.pgid], h - 1) && (e.pgid in s.nodes || e.pgid in s.pages)
  {
    hide Ascending, Layered, TreeIds, Distinct, Bounded, LinkedUp, Apart, Whole;
    TopIsBranch(s, q, h);
    BranchKeysAscend(s, root, height, q);
    assert StockedAt(s, root, None, TreeIds(s, [root], height), q);
    forall e | e in s.Inodes(q)
      ensures e.pgid in TreeIds(s, [root], height) && Whole(s, [e.pgid], h - 1) && (e.pgid in s.nodes || e.pgid in s.pages)
    {
      var i :| 0 <= i < |s.Inodes(q)| && s.Inodes(q)[i] == e;
      assert KidsOf(s, q)[i] == e.pgid;
      KidSubtrees(s, q, h, i);
      WholeIsDistinct(s, root, height);
      KidInTree(s, [root], height, q, e.pgid);
      assert StockedAt(s, root, None, TreeIds(s, [root], height), e.pgid);
    }
  }

  lemma WholeIsDistinct(s: Store, root: Pgid, h: nat)
    requires Whole(s, [root], h)
    ensures Layered(s, [root], h) && Distinct(TreeIds(s, [root], h))
  {
  }

  lemma {:induction false} PathLength(s: Store, q: Pgid, h: nat, key: Key, path: seq<nat>, n: Pgid)
    requires LeadsTo(s, q, h, key, path, n)
    ensures |path| == h
    decreases h
  {
    if h > 0 { PathLength(s, s.Inodes(q)[path[0]].pgid, h - 1, key, path[1..], n); }
  }

  // Only nodes under cached nodes are cached.
  lemma {:induction false} CachedAbove(s: Store, root: Pgid, height: nat, q: Pgid, h: nat, key: Key, path: seq<nat>, n: Pgid)
    requires Sound(s, root, height, None) && q in TreeIds(s, [root], height) && Whole(s, [q], h)
    requires LeadsTo(s, q, h, key, path, n) && n in s.nodes
    ensures q in s.nodes
    decreases h
  {
    hide TreeIds, Bounded, Stocked, Whole;
    TopIsBranch(s, q, h);
    if h > 0 {
      SearchKid(s, root, height, q, h);
      var e := s.Inodes(q)[path[0]];
      CachedAbove(s, root, height, e.pgid, h - 1, key, path[1..], n);
      assert Link(s, q, path[0]);
    }
  }

  // A page read into the cache as a kid of an aligned node.
  lemma AlignedStays(s: Store, p: Pgid, parent: Option<Pgid>)
    requires Aligned(s.nodes)
    ensures Aligned(Materialized(s, p, parent)) && SameNodes(s, s.(nodes := Materialized(s, p, parent)))
  {
  }

  lemma WholeStays(s: Store, t: Store, q: Pgid, h: nat)
    requires SameNodes(s, t) && Whole(s, [q], h)
    ensures Whole(t, [q], h)
  {
    hide TreeIds, Layered, Distinct;
    LevelFrame(s, t, [q], h);
  }

  lemma RootWhole(s: Store, root: Pgid, h: nat)
    requires Sound(s, root, h, None)
    ensures Whole(s, [root], h) && root in TreeIds(s, [root], h)
  {
    TopIn(s, root, h);
  }

  lemma LeafLeads(s: Store, q: Pgid, key: Key)
    ensures LeadsTo(s, q, 0, key, [], q)
  {
  }

  lemma SameTwice(s: Store, t: Store, u: Store)
    requires SameNodes(s, t) && SameNodes(t, u)
    ensures SameNodes(s, u)
  {
  }

  lemma FirstOnPath(s: Store, q: Pgid, h: nat, key: Key, i: nat, rest: seq<nat>, n: Pgid)
    requires h > 0 && Chosen(s.Inodes(q), key, i) && LeadsTo(s, s.Inodes(q)[i].pgid, h - 1, key, rest, n)
    ensures LeadsTo(s, q, h, key, [i] + rest, n)
  {
    assert ([i] + rest)[1..] == rest;
  }

  lemma NextOnPath(s: Store, q: Pgid, h: nat, key: Key, path: seq<nat>, n: Pgid)
    requires LeadsTo(s, q, h, key, path, n)
    ensures h > 0 ==> path != [] && path[0] < |s.Inodes(q)| && LeadsTo(s, s.Inodes(q)[path[0]].pgid, h - 1, key, path[1..], n)
    ensures h == 0 ==> q == n
  {
  }

  // What the leaf of the search has under the key is what the bucket has.
  lemma {:induction false} FoundThere(s: Store, root: Pgid, h: nat, key: Key, path: seq<nat>, n: Pgid)
    requires Sound(s, root, h, None) && Aligned(s.nodes) && LeadsTo(s, root, h, key, path, n) && s.IsLeaf(n)
    requires Ascending(InodeKeys(s.Inodes(n)))
    ensures Buckets.Find(Leaves(s, [root], h), key) == Buckets.Find(s.Inodes(n), key)
    ensures Buckets.Find(s.Inodes(n), key).None? ==> Removed(Leaves(s, [root], h), key) == Leaves(s, [root], h)
  {
    hide Less, Ascending, Layered, TreeIds, Distinct, Bounded, Leaves, Stocked, LinkedUp;
    var a, b := EditUnder(s, s, root, h, None, None, key, path, n, TreeIds(s, [root], h));
    Buckets.UpdateWithin(a, s.Inodes(n), b, key, Inode(0, 0, key, []));
    if !HasKey(s.Inodes(n), key) { Buckets.NothingRemoved(Leaves(s, [root], h), key); }
  }

  lemma ContentsAscend(s: Store, root: Pgid, h: nat)
    requires Sound(s, root, h, None)
    ensures Ascending(InodeKeys(Leaves(s, [root], h)))
  {
    hide Less, Ascending, Layered, TreeIds, Distinct, Leaves, Stocked, LinkedUp, Bounded;
    BoundedLeaves(s, root, h, None, None);
  }

  // The binary search of a branch, and the step back after it.
  method Choose(inodes: seq<Inode>, key: Key) returns (index: nat)
    requires inodes != [] && Ascending(InodeKeys(inodes))
    ensures index < |inodes| && Chosen(inodes, key, index)
  {
    hide Ascending, Less, Chosen;
    var keys := InodeKeys(inodes);
    var exact: bool;
    index, exact := SearchKeys(keys, key);
    assert forall i :: 0 <= i < |keys| ==> keys[i] == inodes[i].key;
    ChosenBySearch(inodes, key, index, exact);
    if !exact && index > 0 { index := index - 1; }
    ChosenIndex(inodes, key, index);
  }

  // The lookup of a key in a leaf.
  method Lookup(inodes: seq<Inode>, key: Key) returns (found: Option<Inode>)
    requires Ascending(InodeKeys(inodes))
    ensures found == Buckets.Find(inodes, key)
  {
    hide Ascending;
    var keys := InodeKeys(inodes);
    var index, exact := SearchKeys(keys, key);
    assert forall i :: 0 <= i < |keys| ==> keys[i] == inodes[i].key;
    RankIs(inodes, key, index);
    return if exact then Some(inodes[index]) else None;
  }

  lemma TreeAscends(s: Store, root: Pgid, h: nat, n: Pgid)
    requires Sound(s, root, h, None) && n in TreeIds(s, [root], h)
    ensures Ascending(InodeKeys(s.Inodes(n)))
  {
    hide TreeIds, Whole, Bounded, LinkedUp, Stocked, Ascending;
    BranchKeysAscend(s, root, h, n);
  }

  lemma InsertedEdits(was: seq<Inode>, item: Inode)
    requires Ascending(InodeKeys(was)) && item.key != [] && item.pgid == 0
    ensures Edited(was, Inserted(was, item.key, item), item.key) && Inserted(was, item.key, item) != []
  {
    hide Ascending, InodeKeys;
    PutIsUpdate(was, item);
    assert item in Inserted(was, item.key, item);
  }

  lemma RemovedEdits(was: seq<Inode>, key: Key)
    requires Ascending(InodeKeys(was))
    ensures Edited(was, Removed(was, key), key)
  {
    hide Ascending, InodeKeys, Removed;
    DelIsRemoval(was, key);
  }
}
