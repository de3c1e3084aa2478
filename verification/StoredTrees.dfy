// The tree that the pages and nodes of a bucket show to cursors (environment/bbolt/cursor.go) and to the
// key order checker (environment/bbolt/tx_check.go).
module StoredTrees {
  import opened Bounds
  import opened Inodes
  import opened Keys
  import opened Levels
  import opened Options
  import opened PageIds
  import opened Rebalance
  import opened Trees
  import KeyOrder
  import NodeCaches
  import PageTrees
  import Protocol
  import Spill

  function TreeAt(s: Store, q: Pgid, h: nat): Tree
    decreases h
  {
    if h == 0 then Leaf(s.Inodes(q)) else Branch(ElemsAt(s, s.Inodes(q), h))
  }

  function ElemsAt(s: Store, inodes: seq<Inode>, h: nat): (elems: seq<Elem>)
    requires h > 0
    ensures |elems| == |inodes|
    decreases h, 0
  {
    seq(|inodes|, i requires 0 <= i < |inodes| => Elem(inodes[i].key, TreeAt(s, inodes[i].pgid, h - 1)))
  }

  // The page that a path of indexes leads to.
  function PageDown(s: Store, q: Pgid, h: nat, down: seq<nat>): Option<Pgid>
    decreases |down|
  {
    if down == [] then Some(q)
    else if h > 0 && down[0] < |s.Inodes(q)| then PageDown(s, s.Inodes(q)[down[0]].pgid, h - 1, down[1..])
    else None
  }

  // So the tree has at each path the keys of the page or node there, and in the leaves its items.
  lemma {:induction false} TreeByPath(s: Store, q: Pgid, h: nat, down: seq<nat>)
    ensures PageDown(s, q, h, down).Some? <==> PageTrees.SubtreeAt(TreeAt(s, q, h), down).Some?
    ensures PageDown(s, q, h, down).Some? ==> |down| <= h
    ensures PageDown(s, q, h, down).Some? ==>
      var inodes, t := s.Inodes(PageDown(s, q, h, down).value), PageTrees.SubtreeAt(TreeAt(s, q, h), down).value;
      && (|down| == h ==> t == Leaf(inodes))
      && (|down| < h ==> t.Branch? && |t.elems| == |inodes| && forall i :: 0 <= i < |inodes| ==> t.elems[i].key == inodes[i].key)
    decreases |down|
  {
    if down != [] && h > 0 && down[0] < |s.Inodes(q)| {
      TreeByPath(s, s.Inodes(q)[down[0]].pgid, h - 1, down[1..]);
    }
  }

  // A cursor meets the items of the leaves in their order.
  lemma {:induction false} ItemsAreLeaves(s: Store, q: Pgid, h: nat)
    ensures Items(TreeAt(s, q, h)) == Leaves(s, [q], h)
    decreases h, 1, 0
  {
    EntriesOfOne(s, q);
    if h > 0 {
      var inodes := s.Inodes(q);
      PrefixItems(s, inodes, h, |inodes|);
      assert ElemsAt(s, inodes, h)[..|inodes|] == ElemsAt(s, inodes, h) && Pgids(inodes)[..|inodes|] == Pgids(inodes);
    }
  }

  lemma {:induction false} PrefixItems(s: Store, inodes: seq<Inode>, h: nat, i: nat)
    requires h > 0 && i <= |inodes|
    ensures ItemsOf(ElemsAt(s, inodes, h)[..i]) == Leaves(s, Pgids(inodes)[..i], h - 1)
    decreases h, 0, i
  {
    hide Items, Leaves, ItemsOf, TreeAt;
    var elems, ids := ElemsAt(s, inodes, h), Pgids(inodes);
    if i == 0 {
      assert elems[..0] == [] && ids[..0] == [];
      NoLeaves(s, h - 1);
      NoItems();
    } else {
      PrefixItems(s, inodes, h, i - 1);
      ItemsAreLeaves(s, ids[i - 1], h - 1);
      ItemsOfAt(elems, i - 1);
      assert ids[..i] == ids[..i - 1] + [ids[i - 1]];
      LeavesConcat(s, ids[..i - 1], [ids[i - 1]], h - 1);
    }
  }

  lemma NoItems()
    ensures ItemsOf([]) == []
  {
  }

  // A search can rely on it.
  lemma {:induction false} BoundedIsOrdered(s: Store, q: Pgid, h: nat, lo: Option<Key>, hi: Option<Key>)
    requires Whole(s, [q], h) && Bounded(s, q, h, lo, hi)
    ensures Ordered(TreeAt(s, q, h))
    decreases h
  {
    hide Less, Layered, TreeIds, Distinct, Leaves, Whole, Apart, Inside, Items, Ascending;
    var inodes := s.Inodes(q);
    BoundedParts(s, q, h, lo, hi);
    if h > 0 {
      var elems := ElemsAt(s, inodes, h);
      assert ElemKeys(elems) == InodeKeys(inodes);
      forall i | 0 <= i < |elems|
        ensures Ordered(elems[i].child)
        ensures i > 0 ==> AllFrom(Items(elems[i].child), elems[i].key)
        ensures i + 1 < |elems| ==> AllBelow(Items(elems[i].child), elems[i + 1].key)
      {
        KidSubtrees(s, q, h, i);
        assert KidBounded(s, inodes, i, h, lo, hi) && KidsOf(s, q)[i] == inodes[i].pgid;
        KidIsBounded(s, inodes, i, h, lo, hi);
        BoundedIsOrdered(s, inodes[i].pgid, h - 1, LowerAt(inodes, i, lo), UpperAt(inodes, i, hi));
        BoundedLeaves(s, inodes[i].pgid, h - 1, LowerAt(inodes, i, lo), UpperAt(inodes, i, hi));
        ItemsAreLeaves(s, inodes[i].pgid, h - 1);
      }
    }
  }

  // Every branch has kids.
  lemma {:induction false} SoundIsRooted(s: Store, root: Pgid, height: nat, q: Pgid, h: nat)
    requires Sound(s, root, height, None) && q in TreeIds(s, [root], height) && Whole(s, [q], h)
    ensures Rooted(TreeAt(s, q, h))
    ensures s.nodes == map[] && (q != root || s.Inodes(q) != []) ==> Filled(TreeAt(s, q, h))
    decreases h
  {
    hide Ascending, TreeIds, Bounded, LinkedUp, Apart, Layered, Distinct;
    var inodes := s.Inodes(q);
    LayeredTop(s, q, h);
    assert StockedAt(s, root, None, TreeIds(s, [root], height), q);
    if h > 0 {
      var elems := ElemsAt(s, inodes, h);
      forall i | 0 <= i < |elems| ensures Rooted(elems[i].child) && (s.nodes == map[] ==> Filled(elems[i].child)) {
        assert KidsOf(s, q)[i] == inodes[i].pgid;
        KidSubtrees(s, q, h, i);
        KidInTree(s, [root], height, q, inodes[i].pgid);
        SoundIsRooted(s, root, height, inodes[i].pgid, h - 1);
      }
    }
  }

  lemma LayeredTop(s: Store, q: Pgid, h: nat)
    requires Whole(s, [q], h)
    ensures s.IsLeaf(q) <==> h == 0
  {
    hide TreeIds, Distinct;
    assert q in [q];
  }

  // On pages a subtree starts with the key that leads to it.
  lemma {:induction false} BoundedFromFirst(s: Store, root: Pgid, height: nat, q: Pgid, h: nat, lo: Option<Key>, hi: Option<Key>)
    requires Sound(s, root, height, None) && s.nodes == map[] && q in TreeIds(s, [root], height) && Whole(s, [q], h)
    requires Bounded(s, q, h, lo, hi) && s.Inodes(q) != []
    ensures Bounded(s, q, h, Some(FirstKey(s.Inodes(q))), hi)
    decreases h
  {
    hide Less, AtMost, Ascending, TreeIds, LinkedUp, Apart, Layered, Distinct, Whole, InodeKeys;
    var inodes := s.Inodes(q);
    var first := Some(FirstKey(inodes));
    BoundedParts(s, q, h, lo, hi);
    FirstIsLeast(inodes, lo, hi);
    LayeredTop(s, q, h);
    if h > 0 {
      forall i | 0 <= i < |inodes| ensures KidBounded(s, inodes, i, h, first, hi) {
        assert KidBounded(s, inodes, i, h, lo, hi) && KidsOf(s, q)[i] == inodes[i].pgid;
        if i == 0 {
          var kid := inodes[0].pgid;
          KidSubtrees(s, q, h, 0);
          RootParts(s, root, height);
          KidInTree(s, [root], height, q, kid);
          LinkAt(s, root, height, None, q, 0);
          KidIsBounded(s, inodes, 0, h, lo, hi);
          PageIsFull(s, root, height, kid);
          BoundedFromFirst(s, root, height, kid, h - 1, LowerAt(inodes, 0, lo), UpperAt(inodes, 0, hi));
        }
      }
    }
    MakeBounded(s, q, h, first, hi);
  }

  lemma RootParts(s: Store, root: Pgid, h: nat)
    requires Sound(s, root, h, None)
    ensures Layered(s, [root], h) && Distinct(TreeIds(s, [root], h))
  {
  }

  lemma PageIsFull(s: Store, root: Pgid, height: nat, q: Pgid)
    requires Sound(s, root, height, None) && s.nodes == map[] && q in TreeIds(s, [root], height) && q != root
    ensures s.Inodes(q) != []
  {
    assert StockedAt(s, root, None, TreeIds(s, [root], height), q);
  }

  lemma FirstIsLeast(inodes: seq<Inode>, lo: Option<Key>, hi: Option<Key>)
    requires KeysWithin(inodes, lo, hi) && inodes != []
    ensures KeysWithin(inodes, Some(FirstKey(inodes)), hi)
  {
    hide Less;
    forall e | e in inodes ensures AtMost(inodes[0].key, e.key) {
      var i :| 0 <= i < |inodes| && inodes[i] == e;
      KeyOrder.InOrder(inodes, 0, i);
    }
  }

  // What the bounds say in the checker's terms.
  lemma {:induction false} BoundedIsInRanges(s: Store, q: Pgid, h: nat, lo: Option<Key>, hi: Option<Key>)
    requires Whole(s, [q], h) && Bounded(s, q, h, lo, hi) && lo.Some?
    ensures KeyOrder.InRanges(TreeAt(s, q, h), lo, hi)
    decreases h
  {
    hide Less, AtMost, Layered, TreeIds, Distinct, Whole, Apart, Inside, Ascending, InodeKeys;
    var inodes := s.Inodes(q);
    BoundedParts(s, q, h, lo, hi);
    if h > 0 {
      var elems := ElemsAt(s, inodes, h);
      assert elems != [] ==> inodes[0] in inodes;
      forall i | 0 <= i < |elems| ensures KeyOrder.InRanges(elems[i].child, Some(elems[i].key), KeyOrder.NextBound(elems, i, hi)) {
        KidSubtrees(s, q, h, i);
        assert KidBounded(s, inodes, i, h, lo, hi) && KidsOf(s, q)[i] == inodes[i].pgid;
        KidIsBounded(s, inodes, i, h, lo, hi);
        BoundedIsInRanges(s, inodes[i].pgid, h - 1, LowerAt(inodes, i, lo), UpperAt(inodes, i, hi));
      }
    }
  }

  lemma {:induction false} NoLowerBound(t: Tree, lo: Option<Key>, hi: Option<Key>)
    requires KeyOrder.InRanges(t, lo, hi)
    ensures KeyOrder.InRanges(t, None, hi)
  {
    if t.Branch? {
      forall i | 0 <= i < |t.elems| ensures KeyOrder.InRanges(t.elems[i].child, Some(t.elems[i].key), KeyOrder.NextBound(t.elems, i, hi)) { }
    }
  }

  // The pages of a committed bucket: a cursor finds the leaves' items in order, a search can rely on the
  // separators, reverse iteration on the absence of empty leaves, and the key order checker is silent.
  lemma {:induction false} CommittedTree(s: Store, root: Pgid, h: nat)
    requires Sound(s, root, h, None) && s.nodes == map[]
    ensures var t := TreeAt(s, root, h);
      && Items(t) == Leaves(s, [root], h) && Rooted(t) && Ordered(t)
      && (Items(t) != [] ==> Filled(t))
      && KeyOrder.Passes(t, None, None)
  {
    hide TreeIds, Bounded, LinkedUp, Stocked, Items, Ordered, Rooted, Filled, Leaves, TreeAt, KeyOrder.Passes, KeyOrder.InRanges, Whole;
    var t := TreeAt(s, root, h);
    TopIn(s, root, h);
    ItemsAreLeaves(s, root, h);
    BoundedIsOrdered(s, root, h, None, None);
    SoundIsRooted(s, root, h, root, h);
    if s.Inodes(root) == [] {
      EmptyRoot(s, root, h);
    } else {
      BoundedFromFirst(s, root, h, root, h, None, None);
      BoundedIsInRanges(s, root, h, Some(FirstKey(s.Inodes(root))), None);
      NoLowerBound(t, Some(FirstKey(s.Inodes(root))), None);
      OrderedAscends(t);
      KeyOrder.SilenceMeansOrder(t, None, None);
    }
  }

  lemma EmptyRoot(s: Store, root: Pgid, h: nat)
    requires Sound(s, root, h, None) && s.Inodes(root) == []
    ensures h == 0 && Items(TreeAt(s, root, h)) == [] && KeyOrder.Passes(TreeAt(s, root, h), None, None)
  {
    TopIn(s, root, h);
    LayeredTop(s, root, h);
    assert StockedAt(s, root, None, TreeIds(s, [root], h), root);
  }

  // Edits, a commit, and what readers and the checker then find on the pages.
  method TransactAndRead(c: NodeCaches.NodeCache, edits: seq<NodeCaches.Edit>)
    requires c.Editable() && c.nodes == map[] && c.Roomy() && c.pageSize > 0
    modifies c
    ensures var t := TreeAt(c.S(), c.root, c.height);
      && Items(t) == NodeCaches.Applied(old(c.Contents()), edits) && Rooted(t) && Ordered(t)
      && (Items(t) != [] ==> Filled(t))
      && KeyOrder.Passes(t, None, None)
  {
    hide Sound, Items, Ordered, Rooted, Filled, Leaves, TreeAt, KeyOrder.Passes, NodeCaches.Applied;
    c.Transact(edits);
    CommittedTree(c.S(), c.root, c.height);
  }

  // The database's allocation is one of the choices that the node cache leaves open: as long as the bucket's
  // pages and nodes are among the pages of the last commit and of the writer, the first page of the block
  // that it hands out is unused in the bucket.
  lemma AllocationIsUnused(s: Protocol.State, n: nat, found: Pgid, t: Protocol.State, store: Store)
    requires Protocol.Inv(s) && Protocol.Next(s, Protocol.Allocate(n, found), t)
    requires store.pages.Keys + store.nodes.Keys <= Protocol.Pages(s.Current().blocks) + Protocol.Pages(s.writer.value.blocks)
    ensures Spill.FreshPage(store, if found != 0 then found else s.writer.value.hwm)
  {
    hide Protocol.CatalogOk, Protocol.WritingOk, Protocol.Intact, Protocol.Visible, Protocol.BlocksOk, Protocol.BlocksNew,
      Protocol.Pages, PageIds.Allocated, Protocol.Block;
    var m, start := s.Current(), if found != 0 then found else s.writer.value.hwm;
    Protocol.UnusedApart(s);
    Protocol.BlockWithinHighWater(s);
    Protocol.HighWaterAtLeast(s);
    assert m.txid in s.Open() && s.snaps[m.txid].pages == Protocol.Pages(m.blocks);
    if found != 0 {
      Protocol.AllocatedCatalog(s.cat, m, found, n, t.cat.free);
      assert found in Interval(found, n);
    }
  }
}
