// The node cache of a bucket (environment/bbolt/bucket.go, environment/bbolt/node.go): rebalance and spill.
module NodeCaches {
  import opened Bounds
  import opened Inodes
  import opened Keys
  import opened LeafEdits
  import opened Levels
  import opened Nodes
  import opened Options
  import opened PageIds
  import opened Rebalance
  import opened Spill
  import Buckets

  ghost predicate HasRoom(pages: map<Pgid, Page>, room: map<Pgid, nat>, written: seq<Pgid>, pageSize: nat) {
    forall id :: id in written ==> id != 0 && id in pages && id in room && JustFits(pages[id].inodes, room[id], pageSize)
  }

  // So many pages hold the node, and one less would not.
  ghost predicate JustFits(inodes: seq<Inode>, count: nat, pageSize: nat) {
    (count - 1) * pageSize < NodeSize(inodes) <= count * pageSize
  }

  lemma RoomForOneMore(pages: map<Pgid, Page>, room: map<Pgid, nat>, written: seq<Pgid>, pageSize: nat, id: Pgid, page: Page, count: nat)
    requires HasRoom(pages, room, written, pageSize) && id != 0 && id !in pages && JustFits(page.inodes, count, pageSize)
    ensures HasRoom(pages[id := page], room[id := count], written + [id], pageSize)
  {
    hide JustFits;
  }

  lemma UnusedOneMore(s: Store, ids: seq<Pgid>, id: Pgid)
    requires Unused(s, ids) && id != 0 && id !in s.pages && id !in s.nodes && id !in ids
    ensures Unused(s, ids + [id])
  {
  }

  lemma UnusedNone(s: Store)
    ensures Unused(s, [])
  {
  }

  // The first of the pieces are on pages, and the parent refers to them.
  ghost predicate WrittenSoFar(s: Store, t: Store, n: Pgid, p: Pgid, j: nat, pieces: seq<seq<Inode>>, ids: seq<Pgid>) {
    && n in s.nodes && p in s.nodes && j < |s.nodes[p].inodes| && |ids| <= |pieces| && Unused(s, ids)
    && t.pages == Written(s.pages, s.nodes[n].isLeaf, pieces[..|ids|], ids) && (forall q :: q in t.pages <==> q in s.pages || q in ids)
    && t.nodes == s.nodes[p := s.nodes[p].(inodes := PutSoFar(s.nodes[p].inodes, j, pieces, ids))]
  }

  lemma OneMorePiece(s: Store, t: Store, n: Pgid, p: Pgid, j: nat, pieces: seq<seq<Inode>>, ids: seq<Pgid>, id: Pgid, key: Key)
    requires WrittenSoFar(s, t, n, p, j, pieces, ids) && |ids| < |pieces| && FreshPage(t, id)
    requires Ascending(InodeKeys(s.nodes[p].inodes)) && FirstsFit(s.nodes[p].inodes, j, pieces)
    requires key == if ids == [] then s.nodes[p].inodes[j].key else FirstKey(pieces[|ids|])
    ensures var piece := pieces[|ids|];
      WrittenSoFar(s, Store(t.pages[id := Page(s.nodes[n].isLeaf, piece)],
        t.nodes[p := t.nodes[p].(inodes := Inserted(t.nodes[p].inodes, key, Inode(0, id, FirstKey(piece), [])))]), n, p, j, pieces, ids + [id])
  {
    hide Ascending, FirstsFit, PutSoFar, Inserted, Written, Unused, InodeKeys;
    PutPiece(s.nodes[p].inodes, j, pieces, ids, id, key);
    OneWritten(s.pages, s.nodes[n].isLeaf, pieces, ids, id);
    UnusedOneMore(s, ids, id);
  }

  class NodeCache {
    const pageSize: nat
    // The threshold of rebalance: half of FillPercent of the page size.
    const threshold: int
    // The threshold of split: FillPercent of the page size.
    const fill: int
    var pages: map<Pgid, Page>
    var root: Pgid
    var nodes: map<Pgid, Cached>
    var freed: seq<Pgid>
    // The number of pages allocated for each page written.
    var room: map<Pgid, nat>
    ghost var written: seq<Pgid>
    ghost var height: nat

    // A bucket as it is opened: nothing cached yet.
    constructor (pages: map<Pgid, Page>, root: Pgid, pageSize: nat, threshold: int, fill: int, ghost height: nat)
      requires Sound(Store(pages, map[]), root, height, None)
      ensures Valid(None) && this.root == root && this.pages == pages && nodes == map[] && freed == [] && written == []
      ensures this.pageSize == pageSize && this.threshold == threshold && this.fill == fill && this.height == height && Roomy()
      ensures root in pages && (root == 0 ==> height == 0) ==> Editable()
    {
      this.pageSize, this.threshold, this.fill := pageSize, threshold, fill;
      this.pages, this.root, this.height := pages, root, height;
      nodes, freed, written, room := map[], [], [], map[];
    }

    // The root as a node, without a parent.
    method OpenRoot()
      requires Valid(None) && (root in nodes || root in pages)
      modifies this`nodes
      ensures Valid(None) && root in nodes && Contents() == old(Contents()) && AllPages() == old(AllPages())
      ensures nodes == Materialized(old(S()), root, None)
    {
      hide Sound, TreeIds, Leaves;
      RootMaterialized(S(), root, height);
      if root !in nodes {
        var page := pages[root];
        nodes := nodes[root := Cached(page.isLeaf, false, FirstKey(page.inodes), None, page.inodes)];
      }
    }

    function S(): Store
      reads this
    {
      Store(pages, nodes)
    }

    ghost predicate Valid(weak: Option<Pgid>)
      reads this
    {
      Sound(S(), root, height, weak)
    }

    // As long as puts and deletes go on: nothing rebalanced yet.
    ghost predicate Editable()
      reads this
    {
      Valid(None) && Aligned(nodes) && (root == 0 ==> height == 0) && (root in nodes || root in pages)
    }

    ghost function Contents(): seq<Inode>
      reads this
    {
      Leaves(S(), [root], height)
    }

    ghost function AllPages(): multiset<Pgid>
      reads this
    {
      Pages(S(), root, height, freed)
    }

    // node: reads a page into the cache.
    method Node(p: Pgid, parent: Pgid)
      requires p in nodes || p in pages
      modifies this`nodes
      ensures nodes == Materialized(old(S()), p, Some(parent))
    {
      if p in nodes { return; }
      var page := pages[p];
      nodes := nodes[p := Cached(page.isLeaf, false, FirstKey(page.inodes), Some(parent), page.inodes)];
    }

    method Free(n: Pgid)
      modifies this`freed
      ensures freed == if n != 0 then old(freed) + [n] else old(freed)
    {
      if n != 0 { freed := freed + [n]; }
    }

    method Reparent(kids: seq<Pgid>, p: Pgid)
      modifies this`nodes
      ensures nodes == Reparented(old(nodes), kids, p)
    {
      for i := 0 to |kids|
        invariant nodes == Reparented(old(nodes), kids[..i], p)
      {
        assert kids[..i + 1][..i] == kids[..i];
        if kids[i] in nodes { nodes := nodes[kids[i] := nodes[kids[i]].(parent := Some(p))]; }
      }
      assert kids[..|kids|] == kids;
    }

    // childAt: the kid at an index, read into the cache if it is not there.
    method ChildAt(p: Pgid, i: nat, ghost weak: Option<Pgid>) returns (c: Pgid)
      requires Valid(weak) && p in TreeIds(S(), [root], height) && p in nodes && !nodes[p].isLeaf && i < |nodes[p].inodes|
      modifies this`nodes
      ensures Valid(weak) && Contents() == old(Contents()) && AllPages() == old(AllPages())
      ensures TreeIds(S(), [root], height) == old(TreeIds(S(), [root], height))
      ensures nodes == Materialized(old(S()), c, Some(p))
      ensures c == old(nodes[p].inodes[i].pgid) && c in nodes
      ensures p in nodes && nodes[p] == old(nodes[p])
      ensures forall q :: EmptyAt(S(), q) ==> old(EmptyAt(S(), q))
      ensures old(root in nodes) ==> root in nodes
      ensures Marks(nodes) == old(Marks(nodes))
    {
      hide Sound, Leaves, TreeIds;
      c := nodes[p].inodes[i].pgid;
      MaterializeKeeps(S(), root, height, weak, p, i);
      Node(c, p);
    }

    // search: down the pages and nodes to the leaf where a key belongs.
    method Search(q: Pgid, key: Key, ghost h: nat) returns (path: seq<nat>, n: Pgid)
      requires Valid(None) && Whole(S(), [q], h) && q in TreeIds(S(), [root], height) && (q in nodes || q in pages)
      ensures LeadsTo(S(), q, h, key, path, n) && S().IsLeaf(n) && (n in nodes || n in pages)
      ensures Ascending(InodeKeys(S().Inodes(n)))
      decreases h
    {
      hide Sound, TreeIds, Leaves, Whole, Ascending, LeadsTo, Chosen, Less;
      var isLeaf := if q in nodes then nodes[q].isLeaf else pages[q].isLeaf;
      var inodes := if q in nodes then nodes[q].inodes else pages[q].inodes;
      TopIsBranch(S(), q, h);
      TreeAscends(S(), root, height, q);
      if isLeaf {
        LeafLeads(S(), q, key);
        return [], q;
      }
      SearchKid(S(), root, height, q, h);
      var index := Choose(inodes, key);
      assert inodes[index] in inodes;
      var rest;
      rest, n := Search(inodes[index].pgid, key, h - 1);
      FirstOnPath(S(), q, h, key, index, rest, n);
      path := [index] + rest;
    }

    // The cursor's node: the leaf and everything above it is read into the cache.
    method CursorNode(path: seq<nat>, leaf: Pgid, ghost key: Key) returns (n: Pgid)
      requires Editable() && LeadsTo(S(), root, height, key, path, leaf) && S().IsLeaf(leaf)
      modifies this`nodes
      ensures Editable() && n == leaf && n in nodes && nodes[n].isLeaf && root in nodes
      ensures LeadsTo(S(), root, height, key, path, n) && SameNodes(old(S()), S())
      ensures Contents() == old(Contents()) && AllPages() == old(AllPages())
    {
      hide Sound, TreeIds, Leaves, LeadsTo, Aligned, Whole;
      RootWhole(S(), root, height);
      PathLength(S(), root, height, key, path, leaf);
      if leaf in nodes {
        CachedAbove(S(), root, height, root, height, key, path, leaf);
        return leaf;
      }
      AlignedStays(S(), root, None);
      OpenRoot();
      n := root;
      LeadsFrame(old(S()), S(), root, height, key, path, leaf);
      RootWhole(S(), root, height);
      assert path[0..] == path;
      for i := 0 to |path|
        invariant Editable() && n in nodes && n in TreeIds(S(), [root], height) && Whole(S(), [n], height - i) && root in nodes
        invariant LeadsTo(S(), n, height - i, key, path[i..], leaf) && SameNodes(old(S()), S())
        invariant Contents() == old(Contents()) && AllPages() == old(AllPages())
      {
        ghost var s := S();
        TopIsBranch(s, n, height - i);
        NextOnPath(s, n, height - i, key, path[i..], leaf);
        assert path[i..][1..] == path[i + 1..];
        n := StepDown(n, path[i], height - i);
        LeadsFrame(s, S(), n, height - i - 1, key, path[i + 1..], leaf);
        SameTwice(old(S()), s, S());
      }
      NextOnPath(S(), n, 0, key, path[|path|..], leaf);
      LeadsFrame(old(S()), S(), root, height, key, path, leaf);
    }

    // One step down from a cached branch.
    method StepDown(q: Pgid, i: nat, ghost h: nat) returns (n: Pgid)
      requires Editable() && q in nodes && !nodes[q].isLeaf && q in TreeIds(S(), [root], height) && Whole(S(), [q], h)
      requires i < |nodes[q].inodes| && root in nodes
      modifies this`nodes
      ensures Editable() && n in nodes && n == old(nodes[q].inodes[i].pgid) && root in nodes
      ensures h > 0 && n in TreeIds(S(), [root], height) && Whole(S(), [n], h - 1) && SameNodes(old(S()), S())
      ensures Contents() == old(Contents()) && AllPages() == old(AllPages())
    {
      hide Sound, TreeIds, Leaves, Aligned, Whole;
      ghost var s := S();
      SearchKid(s, root, height, q, h);
      assert nodes[q].inodes[i] in s.Inodes(q);
      n := ChildAt(q, i, None);
      AlignedStays(s, n, Some(q));
      WholeStays(s, S(), n, h - 1);
    }

    // What a search finds under a key, and the leaf that it ends in.
    method Seek(key: Key) returns (path: seq<nat>, leaf: Pgid, found: Option<Inode>)
      requires Editable()
      ensures LeadsTo(S(), root, height, key, path, leaf) && S().IsLeaf(leaf)
      ensures found == Buckets.Find(Contents(), key) == Buckets.Find(S().Inodes(leaf), key)
      ensures found.None? ==> Removed(Contents(), key) == Contents()
    {
      hide Sound, TreeIds, Leaves, LeadsTo, Aligned, Removed, Ascending, Buckets.Find;
      RootWhole(S(), root, height);
      path, leaf := Search(root, key, height);
      found := Lookup(if leaf in nodes then nodes[leaf].inodes else pages[leaf].inodes, key);
      FoundThere(S(), root, height, key, path, leaf);
    }

    // Bucket.Put: an error that changes nothing, or an update of the leaf where the key belongs.
    method Put(key: Key, value: seq<Byte>) returns (outcome: Buckets.Outcome)
      requires Editable()
      modifies this`nodes
      ensures outcome == Buckets.PutOutcome(old(Buckets.Find(Contents(), key)), key, value)
      ensures outcome == Buckets.Done <==>
        (1 <= |key| <= 32768 && |value| <= 2147483646
        && forall item :: item in old(Contents()) && item.key == key ==> item.flags % 2 == 0)
      ensures outcome != Buckets.Done ==> nodes == old(nodes)
      ensures Editable() && AllPages() == old(AllPages())
      ensures outcome == Buckets.Done ==> root in nodes && Contents() == Inserted(old(Contents()), key, Inode(0, 0, key, value))
    {
      hide Sound, TreeIds, Leaves, LeadsTo, Aligned, Inserted, Ascending, Buckets.Find;
      ContentsAscend(S(), root, height);
      Buckets.PutIsDone(Contents(), key, value);
      if key == [] { return Buckets.ErrKeyRequired; }
      if |key| > Buckets.MAX_KEY_SIZE { return Buckets.ErrKeyTooLarge; }
      if |value| > Buckets.MAX_VALUE_SIZE { return Buckets.ErrValueTooLarge; }
      var path, leaf, found := Seek(key);
      if found.Some? && Buckets.IsBucket(found.value) { return Buckets.ErrIncompatibleValue; }
      var n := CursorNode(path, leaf, key);
      PutAt(n, key, value, path);
      return Buckets.Done;
    }

    method PutAt(n: Pgid, key: Key, value: seq<Byte>, ghost path: seq<nat>)
      requires Editable() && LeadsTo(S(), root, height, key, path, n) && n in nodes && nodes[n].isLeaf && key != []
      modifies this`nodes
      ensures Editable() && AllPages() == old(AllPages()) && nodes.Keys == old(nodes.Keys)
      ensures Contents() == Inserted(old(Contents()), key, Inode(0, 0, key, value))
    {
      hide Sound, TreeIds, Leaves, LeadsTo, Aligned, Inserted, Ascending;
      ghost var was, item := nodes[n].inodes, Inode(0, 0, key, value);
      InTree(S(), root, height, None, n);
      TreeAscends(S(), root, height, n);
      var inodes := With(nodes[n].inodes, key, Inode(0, 0, key, value));
      InsertedEdits(was, item);
      ghost var a, b := EditKeeps(S(), root, height, key, path, n, inodes, nodes[n].unbalanced);
      Buckets.UpdateWithin(a, was, b, key, item);
      nodes := nodes[n := nodes[n].(inodes := inodes)];
    }

    // Bucket.Delete: an error that changes nothing, nothing at all if there is no such key, or a removal.
    method Delete(key: Key) returns (outcome: Buckets.Outcome)
      requires Editable()
      modifies this`nodes
      ensures outcome == Buckets.DeleteOutcome(old(Buckets.Find(Contents(), key)))
      ensures outcome == Buckets.Done <==> forall item :: item in old(Contents()) && item.key == key ==> item.flags % 2 == 0
      ensures outcome != Buckets.Done || old(Buckets.Find(Contents(), key)).None? ==> nodes == old(nodes)
      ensures Editable() && (root in nodes || nodes == old(nodes)) && AllPages() == old(AllPages())
      ensures outcome == Buckets.Done ==> Contents() == Removed(old(Contents()), key)
    {
      hide Sound, TreeIds, Leaves, LeadsTo, Aligned, Removed, Ascending, Buckets.Find;
      ContentsAscend(S(), root, height);
      Buckets.PutIsDone(Contents(), key, []);
      var path, leaf, found := Seek(key);
      if found.None? { return Buckets.Done; }
      if Buckets.IsBucket(found.value) { return Buckets.ErrIncompatibleValue; }
      var n := CursorNode(path, leaf, key);
      DeleteAt(n, key, path);
      return Buckets.Done;
    }

    method DeleteAt(n: Pgid, key: Key, ghost path: seq<nat>)
      requires Editable() && LeadsTo(S(), root, height, key, path, n) && n in nodes && nodes[n].isLeaf
      requires Buckets.Find(nodes[n].inodes, key).Some?
      modifies this`nodes
      ensures Editable() && AllPages() == old(AllPages()) && nodes.Keys == old(nodes.Keys)
      ensures Contents() == Removed(old(Contents()), key)
    {
      hide Sound, TreeIds, Leaves, LeadsTo, Aligned, Removed, Ascending, HasKey;
      ghost var was := nodes[n].inodes;
      InTree(S(), root, height, None, n);
      TreeAscends(S(), root, height, n);
      var rest, found := Without(nodes[n].inodes, key);
      RemovedEdits(was, key);
      ghost var a, b := EditKeeps(S(), root, height, key, path, n, rest, true);
      Buckets.UpdateWithin(a, was, b, key, Inode(0, 0, key, []));
      nodes := nodes[n := nodes[n].(inodes := rest, unbalanced := true)];
    }

    // childIndex: by the key of the kid.
    method ChildIndex(p: Pgid, n: Pgid, ghost j: nat) returns (index: nat)
      requires p in nodes && n in nodes && Ascending(InodeKeys(nodes[p].inodes))
      requires j < |nodes[p].inodes| && nodes[p].inodes[j].key == nodes[n].key
      ensures index == j
    {
      hide Ascending;
      var keys := InodeKeys(nodes[p].inodes);
      RemovedAt(nodes[p].inodes, j);
      assert forall i :: 0 <= i < |keys| ==> keys[i] == nodes[p].inodes[i].key;
      var exact: bool;
      index, exact := SearchKeys(keys, nodes[n].key);
      RankIs(nodes[p].inodes, nodes[n].key, index);
    }

    // The root takes over what its only child holds.
    method CollapseRoot()
      requires Valid(Some(root)) && root in nodes && !nodes[root].isLeaf && |nodes[root].inodes| == 1
      modifies this`nodes, this`freed, this`height
      ensures Valid(None) && Contents() == old(Contents()) && AllPages() == old(AllPages())
      ensures forall q :: q != root && EmptyAt(S(), q) ==> old(EmptyAt(S(), q))
      ensures (old(root in nodes) ==> root in nodes) && height == old(height) - 1
      ensures |TreeIds(S(), [root], height)| <= old(|TreeIds(S(), [root], height)|)
      ensures Marks(nodes) <= old(Marks(nodes))
    {
      hide Sound, Leaves, TreeIds, Marks, Collapsed, EmptyAt, Pages;
      RootOnTop(S(), root, height);
      var c := ChildAt(root, 0, Some(root));
      assert KidsOf(S(), root) == [c];
      CollapseEffect(S(), root, height, c, freed);
      TakeOver(c);
      Free(c);
      height := height - 1;
    }

    // The inodes and the kids of the child become the root's.
    method TakeOver(c: Pgid)
      requires root in nodes && c in nodes && c != root
      modifies this`nodes
      ensures nodes == Collapsed(old(S()), root, c)
    {
      hide Reparented;
      var child := nodes[c];
      nodes := nodes[root := nodes[root].(isLeaf := child.isLeaf, inodes := child.inodes)];
      Reparent(Pgids(child.inodes), root);
      nodes := nodes - {c};
    }

    // rebalance leaves a node alone that is larger than the threshold and has keys enough.
    ghost predicate Enough(c: Cached) {
      NodeSize(c.inodes) > threshold && |c.inodes| > if c.isLeaf then 1 else 2
    }

    // A node without inodes leaves its parent and the cache.
    method DropNode(n: Pgid, p: Pgid)
      requires Valid(Some(n)) && n in nodes && nodes[n].inodes == [] && nodes[n].parent == Some(p) && n != root
      modifies this`nodes, this`freed
      ensures Valid(Some(p)) && Ready(S(), root, p) && n !in nodes
      ensures Contents() == old(Contents()) && AllPages() == old(AllPages())
      ensures |TreeIds(S(), [root], height)| < old(|TreeIds(S(), [root], height)|)
      ensures forall q :: EmptyAt(S(), q) ==> old(EmptyAt(S(), q))
      ensures old(root in nodes) ==> root in nodes
      ensures Marks(nodes) <= old(Marks(nodes)) + {p}
    {
      hide Sound, Leaves, TreeIds, Removed, Merges;
      ghost var s := S();
      ghost var j := ParentOf(s, root, height, Some(n), n);
      InTree(s, root, height, Some(n), n);
      NotZero(s, root, height, Some(n), n);
      assert KidsOf(s, p)[j] == n;
      DroppedMerges(s, root, height, p, j, n);
      MergeKeeps(s, s.(nodes := Dropped(s, p, n)), root, height, Some(n), p, j, n);
      BranchKeysAscend(s, root, height, p);
      var rest, found := Without(nodes[p].inodes, nodes[n].key);
      RemovedAt(nodes[p].inodes, j);
      nodes := nodes[p := nodes[p].(inodes := rest, unbalanced := true)];
      nodes := nodes - {n};
      assert Marks(nodes) <= Marks(s.nodes) + {p};
      BranchHasInodes(S(), root, height, Some(p), p);
      Free(n);
    }

    // A node short of inodes is merged with its left sibling, or as a first kid with its right one.
    method MergeWithSibling(n: Pgid, p: Pgid)
      requires Valid(Some(n)) && n in nodes && nodes[n].inodes != [] && nodes[n].parent == Some(p) && n != root
      modifies this`nodes, this`freed
      ensures Valid(Some(p)) && Ready(S(), root, p) && (n in nodes ==> nodes[n].inodes != [])
      ensures Contents() == old(Contents()) && AllPages() == old(AllPages())
      ensures |TreeIds(S(), [root], height)| < old(|TreeIds(S(), [root], height)|)
      ensures forall q :: EmptyAt(S(), q) ==> old(EmptyAt(S(), q))
      ensures old(root in nodes) ==> root in nodes
      ensures Marks(nodes) <= old(Marks(nodes)) + {p}
      ensures p in old(nodes) && var kids := old(nodes[p].inodes);
        exists j :: 0 < j < |kids| && JoinedUp(old(S()), n, kids[j - 1].pgid, kids[j].pgid, j == 1, old(freed))
    {
      hide Sound, Leaves, TreeIds, Merges, Ready, EmptyAt, Pages, Marks, Neighbours;
      ghost var s := S();
      var left, right;
      ghost var j;
      left, right, j := Siblings(n, p);
      MergeNodes(p, left, right, j, Some(n));
      assert JoinedUp(s, n, s.nodes[p].inodes[j - 1].pgid, s.nodes[p].inodes[j].pgid, j == 1, old(freed));
    }

    // Two neighbours, of which one is n, and the left one only where n is the first kid: the left one now has
    // the inodes of both, and the page of the right one is given back.
    ghost predicate JoinedUp(s: Store, n: Pgid, left: Pgid, right: Pgid, first: bool, was: seq<Pgid>)
      reads this
    {
      && (n == right || (first && n == left))
      && S().Inodes(left) == s.Inodes(left) + s.Inodes(right)
      && right !in nodes && freed == was + [right]
    }

    // The two nodes to be merged, read into the cache.
    method Siblings(n: Pgid, p: Pgid) returns (left: Pgid, right: Pgid, ghost j: nat)
      requires Valid(Some(n)) && n in nodes && nodes[n].inodes != [] && nodes[n].parent == Some(p) && n != root
      modifies this`nodes
      ensures Valid(Some(n)) && Contents() == old(Contents()) && AllPages() == old(AllPages())
      ensures TreeIds(S(), [root], height) == old(TreeIds(S(), [root], height))
      ensures forall q :: EmptyAt(S(), q) ==> old(EmptyAt(S(), q))
      ensures (old(root in nodes) ==> root in nodes) && Marks(nodes) == old(Marks(nodes)) && p != n
      ensures p in old(nodes) && p in nodes && nodes[p] == old(nodes[p]) && Neighbours(S(), root, height, p, j)
      ensures 0 < j < |nodes[p].inodes| && left == nodes[p].inodes[j - 1].pgid && right == nodes[p].inodes[j].pgid
      ensures left in nodes && right in nodes && S().Inodes(left) + S().Inodes(right) != []
      ensures n == right || (j == 1 && n == left)
      ensures forall q :: S().Inodes(q) == old(S()).Inodes(q)
    {
      hide Sound, Leaves, TreeIds, Merges, Marks, EmptyAt, Pages, Ascending, Neighbours;
      ghost var i := ParentOf(S(), root, height, Some(n), n);
      BranchHasInodes(S(), root, height, Some(n), p);
      assert |nodes[p].inodes| > 1;
      InTree(S(), root, height, Some(n), p);
      BranchKeysAscend(S(), root, height, p);
      var index := ChildIndex(p, n, i);
      if index == 0 {
        assert index < |nodes[p].inodes| - 1;
        right := ChildAt(p, index + 1, Some(n));
        left, j := n, 1;
        MaterializeIsInvisible(old(S()), right, Some(p));
      } else {
        left := ChildAt(p, index - 1, Some(n));
        right, j := n, i;
        MaterializeIsInvisible(old(S()), left, Some(p));
      }
      BothCached(S(), root, height, p, j);
    }

    // The merge itself: the left node gets the inodes and the kids of the right one.
    method MergeNodes(p: Pgid, left: Pgid, right: Pgid, ghost j: nat, ghost weak: Option<Pgid>)
      requires Valid(weak) && Joinable(S(), root, height, p, left, right, j, weak)
      modifies this`nodes, this`freed
      ensures Valid(Some(p)) && Ready(S(), root, p)
      ensures left in nodes && S().Inodes(left) != [] && right !in nodes && freed == old(freed) + [right]
      ensures S().Inodes(left) == old(S()).Inodes(left) + old(S()).Inodes(right)
      ensures Contents() == old(Contents()) && AllPages() == old(AllPages())
      ensures |TreeIds(S(), [root], height)| < old(|TreeIds(S(), [root], height)|)
      ensures forall q :: EmptyAt(S(), q) ==> old(EmptyAt(S(), q))
      ensures old(root in nodes) ==> root in nodes
      ensures Marks(nodes) <= old(Marks(nodes)) + {p}
    {
      hide Sound, Leaves, TreeIds, MergedCache, Ascending, Ready, EmptyAt, Pages;
      ghost var s := S();
      MergeEffect(s, root, height, weak, p, j);
      Splice(p, left, right);
      Free(right);
      Accounted(s, S(), root, height, right, old(freed));
    }

    // Moving the inodes, and forgetting the right node in the parent and in the cache.
    method Splice(p: Pgid, left: Pgid, right: Pgid)
      requires p in nodes && left in nodes && right in nodes && left != right && left != p && right != p
      requires Ascending(InodeKeys(nodes[p].inodes))
      modifies this`nodes
      ensures nodes == MergedCache(old(S()), p, left, right)
      ensures S().Inodes(left) == old(S()).Inodes(left) + old(S()).Inodes(right)
      ensures Marks(nodes) <= old(Marks(nodes)) + {p}
    {
      hide Ascending, Removed, Reparented;
      ReparentedIs(nodes, KidsOf(S(), right), left);
      var rightNode := nodes[right];
      Reparent(Pgids(rightNode.inodes), left);
      ReparentedMarks(old(nodes), Pgids(rightNode.inodes), left);
      nodes := nodes[left := nodes[left].(inodes := nodes[left].inodes + rightNode.inodes)];
      var rest, found := Without(nodes[p].inodes, rightNode.key);
      nodes := nodes[p := nodes[p].(inodes := rest, unbalanced := true)];
      nodes := nodes - {right};
    }

    // rebalance.
    method Rebalance(n: Pgid)
      requires Valid(Some(n)) && Ready(S(), root, n)
      modifies this`nodes, this`freed, this`height
      ensures Valid(None)
      ensures Contents() == old(Contents()) && AllPages() == old(AllPages())
      ensures n in nodes && n != root ==> nodes[n].inodes != []
      ensures forall q :: q != root && EmptyAt(S(), q) ==> old(EmptyAt(S(), q))
      ensures (old(root in nodes) ==> root in nodes) && height <= old(height)
      ensures !old(nodes[n].unbalanced) ==> nodes == old(nodes) && freed == old(freed)
      ensures old(nodes[n].unbalanced) && Enough(old(nodes[n])) ==>
        nodes == old(nodes)[n := old(nodes[n]).(unbalanced := false)] && freed == old(freed)
      ensures old(nodes[n].unbalanced) && !Enough(old(nodes[n])) && n != root ==>
        |TreeIds(S(), [root], height)| < old(|TreeIds(S(), [root], height)|)
      ensures |TreeIds(S(), [root], height)| <= old(|TreeIds(S(), [root], height)|)
      ensures Marks(nodes) <= old(Marks(nodes)) - {n}
      decreases |TreeIds(S(), [root], height)|
    {
      hide Sound, Leaves, TreeIds, EmptyAt, Pages, Ready, Enough, Marks;
      var settled := Settle(n);
      if settled { return; }
      var p := nodes[n].parent.value;
      if |nodes[n].inodes| == 0 {
        DropNode(n, p);
      } else {
        MergeWithSibling(n, p);
      }
      NotEmpty(S(), n);
      Rebalance(p);
      NotEmpty(S(), n);
    }

    // The cases without a merge: nothing to do, enough inodes, or the root, which may take over its only child.
    method Settle(n: Pgid) returns (settled: bool)
      requires Valid(Some(n)) && Ready(S(), root, n)
      modifies this`nodes, this`freed, this`height
      ensures settled ==> Valid(None) && (n in nodes && n != root ==> nodes[n].inodes != [])
      ensures !settled ==> Valid(Some(n)) && n in nodes && n != root && nodes[n].parent.Some? && nodes[n].inodes == old(nodes[n].inodes)
      ensures Contents() == old(Contents()) && AllPages() == old(AllPages())
      ensures forall q :: q != root && EmptyAt(S(), q) ==> old(EmptyAt(S(), q))
      ensures (old(root in nodes) ==> root in nodes) && height <= old(height)
      ensures !old(nodes[n].unbalanced) ==> settled && nodes == old(nodes) && freed == old(freed)
      ensures old(nodes[n].unbalanced) && Enough(old(nodes[n])) ==>
        settled && nodes == old(nodes)[n := old(nodes[n]).(unbalanced := false)] && freed == old(freed)
      ensures settled <==> n == root || !old(nodes[n].unbalanced) || Enough(old(nodes[n]))
      ensures n == root && old(nodes[n].unbalanced) && !Enough(old(nodes[n])) ==>
        if !old(nodes[n].isLeaf) && |old(nodes[n].inodes)| == 1 then height == old(height) - 1
        else height == old(height) && nodes == old(nodes)[n := old(nodes[n]).(unbalanced := false)] && freed == old(freed)
      ensures |TreeIds(S(), [root], height)| <= old(|TreeIds(S(), [root], height)|)
      ensures Marks(nodes) <= old(Marks(nodes)) - {n}
    {
      hide Sound, Leaves, TreeIds, Pages;
      if !nodes[n].unbalanced {
        Strong(S(), root, height, n);
        return true;
      }
      ClearedKeeps(S(), root, height, n);
      SamePages(S(), S().(nodes := Cleared(S(), n)), root, height, freed);
      nodes := nodes[n := nodes[n].(unbalanced := false)];
      var size := SizeOfInodes(nodes[n].inodes);
      var minKeys := if nodes[n].isLeaf then 1 else 2;
      if size > threshold && |nodes[n].inodes| > minKeys {
        Strong(S(), root, height, n);
        return true;
      }
      ghost var j := ParentOf(S(), root, height, Some(n), n);
      if nodes[n].parent.None? {
        if !nodes[n].isLeaf && |nodes[n].inodes| == 1 {
          CollapseRoot();
        } else {
          if !nodes[n].isLeaf { BranchHasInodes(S(), root, height, Some(n), n); }
          Strong(S(), root, height, n);
        }
        return true;
      }
      return false;
    }

    // Bucket.rebalance: the cache in any order, where nodes may be gone when their turn comes and
    // nodes that were read in on the way may or may not get one.
    method RebalanceAll(order: seq<Pgid>)
      requires Valid(None) && forall n :: n in nodes ==> n in order
      modifies this`nodes, this`freed, this`height
      ensures Valid(None)
      ensures Contents() == old(Contents()) && AllPages() == old(AllPages())
      ensures forall q :: q in nodes && q != root ==> nodes[q].inodes != []
      ensures (old(root in nodes) ==> root in nodes) && height <= old(height)
      ensures Marks(nodes) == {}
    {
      hide Sound, Leaves, TreeIds;
      for i := 0 to |order|
        invariant Valid(None) && Contents() == old(Contents()) && AllPages() == old(AllPages())
        invariant (old(root in nodes) ==> root in nodes) && height <= old(height)
        invariant forall q :: q != root && EmptyAt(S(), q) ==> old(EmptyAt(S(), q)) && q !in order[..i]
        invariant Marks(nodes) <= old(Marks(nodes)) && forall q :: q in Marks(nodes) ==> q !in order[..i]
      {
        if order[i] in nodes {
          Weaken(S(), root, height, order[i]);
          Rebalance(order[i]);
        }
      }
      assert order[..|order|] == order;
      forall q | q in nodes && q != root ensures nodes[q].inodes != [] {
        assert EmptyAt(S(), q) ==> q in order;
      }
    }

    // Every page written has room for its node.
    ghost predicate Roomy()
      reads this`pages, this`room, this`written
    {
      HasRoom(pages, room, written, pageSize)
    }

    // allocate: an unused page id, with room for the inodes after it.
    method Allocate(inodes: seq<Inode>) returns (id: Pgid)
      requires pageSize > 0
      modifies this`room
      ensures FreshPage(S(), id) && id in room
      ensures room == old(room)[id := room[id]] && JustFits(inodes, room[id], pageSize)
    {
      var size := SizeOfInodes(inodes);
      FreshExists(pages.Keys + nodes.Keys);
      id :| id != 0 && id !in pages.Keys + nodes.Keys;
      var count := (size + pageSize - 1) / pageSize;
      RoundedUp(size, pageSize);
      room := room[id := count];
    }

    // The pieces of a node, as split cuts them.
    method Cut(isLeaf: bool, inodes: seq<Inode>) returns (pieces: seq<seq<Inode>>)
      requires inodes != [] && (!isLeaf ==> |inodes| >= 2)
      ensures Partition(inodes, isLeaf, pieces) && SplitInto(inodes, pieces, pageSize, fill)
      ensures |pieces| > 1 ==> |pieces| < |inodes|
    {
      hide NodeSize, SplitInto;
      var node := new Nodes.Node(isLeaf, inodes);
      var parts := node.Split(pageSize, fill);
      pieces := [];
      for i := 0 to |parts|
        invariant |pieces| == i && forall k :: 0 <= k < i ==> pieces[k] == parts[k].inodes
      {
        pieces := pieces + [parts[i].inodes];
      }
      assert pieces == InodesOf(parts);
      SplitPartitions(inodes, pieces, pageSize, fill);
      FewPieces(inodes, pieces, pageSize, fill);
    }

    // spill of a node whose kids are all on pages: each piece goes to a new page, and the parent gets
    // its first key and page id. The old page, if there is one, is given back.
    method SpillNode(n: Pgid, p: Pgid, hasPage: bool, ghost j: nat, ghost weak: Option<Pgid>) returns (ghost ids: seq<Pgid>)
      requires Bottom(S(), root, height, weak, p, n, j) && nodes[n].inodes != [] && Roomy()
      requires !nodes[n].isLeaf ==> |nodes[n].inodes| >= 2
      requires pageSize > 0 && root != 0
      modifies this`pages, this`nodes, this`freed, this`room, this`written
      ensures Valid(weak) && Contents() == old(Contents()) && Roomy()
      ensures nodes.Keys == old(nodes.Keys) - {n} && nodes[p].inodes != []
      ensures |nodes[p].inodes| == |old(nodes[p].inodes)| - 1 + |ids|
      ensures forall q :: q in nodes && q != p ==> nodes[q] == old(nodes[q])
      ensures Unused(old(S()), ids) && written == old(written) + ids
      ensures freed == if hasPage then old(freed) + [n] else old(freed)
      ensures multiset(TreeIds(S(), [root], height)) + multiset{n} == multiset(old(TreeIds(S(), [root], height))) + multiset(ids)
      ensures forall q :: q in old(pages) ==> q in pages && pages[q] == old(pages[q])
      ensures exists pieces :: SplitInto(old(nodes[n].inodes), pieces, pageSize, fill) && |pieces| == |ids|
    {
      hide Sound, Partition, Unused, FirstsFit, SplitInto, Written, Refer, PutSoFar, Roomy, TreeIds, Leaves;
      ghost var s := S();
      var isLeaf, inodes := nodes[n].isLeaf, nodes[n].inodes;
      var pieces := Cut(isLeaf, inodes);
      FirstsBetween(s, root, height, weak, p, n, j, pieces);
      ParentAscends(s, root, height, weak, p);
      PiecesNotEmpty(inodes, isLeaf, pieces);
      ids := WritePieces(n, p, hasPage, pieces, j);
      nodes := nodes - {n};
      AllPut(s, p, n, j, pieces, ids);
      SpilledLooks(s, p, n, j, pieces, ids);
      SpillKeeps(s, S(), root, height, weak, p, n, j, pieces, ids);
    }

    // The loop over the pieces.
    method WritePieces(n: Pgid, p: Pgid, hasPage: bool, pieces: seq<seq<Inode>>, ghost j: nat) returns (ids: seq<Pgid>)
      requires n in nodes && p in nodes && n != p && pageSize > 0 && Roomy()
      requires j < |nodes[p].inodes| && nodes[p].inodes[j].key == nodes[n].key != []
      requires Ascending(InodeKeys(nodes[p].inodes)) && FirstsFit(nodes[p].inodes, j, pieces)
      requires forall k :: 0 <= k < |pieces| ==> pieces[k] != []
      modifies this`pages, this`nodes, this`freed, this`room, this`written
      ensures |ids| == |pieces| && Unused(old(S()), ids) && Roomy() && written == old(written) + ids
      ensures pages == Written(old(pages), old(nodes[n].isLeaf), pieces, ids)
      ensures nodes == old(nodes)[p := old(nodes)[p].(inodes := PutSoFar(old(nodes)[p].inodes, j, pieces, ids))]
      ensures freed == if hasPage && pieces != [] then old(freed) + [n] else old(freed)
    {
      hide Ascending, FirstsFit, Refer, PutSoFar, Inserted, NodeSize, Written, Unused, Roomy, HasRoom, InodeKeys;
      UnusedNone(S());
      ids := [];
      NothingPut(nodes[p].inodes, j, pieces);
      NothingWritten(pages, nodes[n].isLeaf);
      while |ids| < |pieces|
        invariant Roomy() && WrittenSoFar(old(S()), S(), n, p, j, pieces, ids) && written == old(written) + ids
        invariant freed == if hasPage && ids != [] then old(freed) + [n] else old(freed)
        decreases |pieces| - |ids|
      {
        var id := NextPiece(n, p, hasPage, pieces, ids, old(S()), j);
        ids := ids + [id];
      }
      assert pieces[..|pieces|] == pieces;
    }

    // The next piece; with the first one the old page is given back.
    method NextPiece(n: Pgid, p: Pgid, hasPage: bool, pieces: seq<seq<Inode>>, done: seq<Pgid>, ghost s: Store, ghost j: nat) returns (id: Pgid)
      requires WrittenSoFar(s, S(), n, p, j, pieces, done) && |done| < |pieces| && Roomy()
      requires n != p && pageSize > 0 && s.nodes[p].inodes[j].key == s.nodes[n].key != []
      requires Ascending(InodeKeys(s.nodes[p].inodes)) && FirstsFit(s.nodes[p].inodes, j, pieces)
      requires forall k :: 0 <= k < |pieces| ==> pieces[k] != []
      modifies this`pages, this`nodes, this`freed, this`room, this`written
      ensures WrittenSoFar(s, S(), n, p, j, pieces, done + [id]) && Roomy() && written == old(written) + [id]
      ensures freed == if hasPage && done == [] then old(freed) + [n] else old(freed)
    {
      hide Ascending, FirstsFit, Refer, PutSoFar, Inserted, NodeSize, Written, Unused, Roomy, HasRoom, InodeKeys;
      ghost var was, t := s.nodes[p].inodes, S();
      var i := |done|;
      if i == 0 && hasPage { freed := freed + [n]; }
      var key := if i == 0 && nodes[n].key != [] then nodes[n].key else pieces[i][0].key;
      PutPiece(was, j, pieces, done, 0, key);
      FirstsNotEmpty(was, j, pieces, i);
      id := WritePiece(p, nodes[n].isLeaf, pieces[i], key);
      OneMorePiece(s, t, n, p, j, pieces, done, id, key);
    }

    // One piece: allocate, write, put.
    method WritePiece(p: Pgid, isLeaf: bool, piece: seq<Inode>, key: Key) returns (id: Pgid)
      requires p in nodes && pageSize > 0 && Roomy() && piece != [] && piece[0].key != [] && key != []
      requires Ascending(InodeKeys(nodes[p].inodes))
      modifies this`pages, this`nodes, this`room, this`written
      ensures FreshPage(old(S()), id) && Roomy() && written == old(written) + [id]
      ensures pages == old(pages)[id := Page(isLeaf, piece)]
      ensures nodes == old(nodes)[p := old(nodes)[p].(inodes :=
        Inserted(old(nodes)[p].inodes, key, Inode(0, id, FirstKey(piece), [])))]
    {
      hide Ascending, Inserted, NodeSize, HasRoom, InodeKeys;
      ghost var before := room;
      id := Allocate(piece);
      RoomForOneMore(pages, before, written, pageSize, id, Page(isLeaf, piece), room[id]);
      pages := pages[id := Page(isLeaf, piece)];
      var after := With(nodes[p].inodes, key, Inode(0, id, piece[0].key, []));
      nodes := nodes[p := nodes[p].(inodes := after)];
      written := written + [id];
    }

    // The part of spill under the root: children before their parents, in any order. The order of the
    // recursion, by first keys, is one of them.
    method SpillChildren()
      requires Valid(None) && root in nodes && root != 0 && Roomy() && pageSize > 0
      requires forall q :: q in nodes && q != root ==> nodes[q].inodes != []
      modifies this`pages, this`nodes, this`freed, this`room, this`written
      ensures RootOnly(S(), root, height) && Contents() == old(Contents()) && Roomy()
      ensures old(written) <= written && AllPages() == old(AllPages()) + multiset(written[|old(written)|..])
      ensures forall q :: q in old(pages) ==> q in pages && pages[q] == old(pages[q])
    {
      hide Sound, TreeIds, Leaves, Roomy, HasCachedKid, Pages;
      assert written[|old(written)|..] == [];
      while nodes.Keys != {root}
        invariant Valid(None) && root in nodes && Roomy() && Contents() == old(Contents())
        invariant forall q :: q in nodes && q != root ==> nodes[q].inodes != []
        invariant old(written) <= written && AllPages() == old(AllPages()) + multiset(written[|old(written)|..])
        invariant forall q :: q in old(pages) ==> q in pages && pages[q] == old(pages[q])
        decreases |nodes|
      {
        ghost var x := BottomExists(S(), root, height);
        var n :| n in nodes && n != root && !HasCachedKid(nodes, n);
        ghost var before, writtenBefore := nodes, written;
        ghost var ids := SpillOne(n);
        assert written[|old(written)|..] == writtenBefore[|old(written)|..] + ids;
        FewerNodes(before, nodes, n);
      }
    }

    // One of them.
    method SpillOne(n: Pgid) returns (ghost ids: seq<Pgid>)
      requires Valid(None) && n in nodes && n != root && !HasCachedKid(nodes, n) && root != 0 && Roomy() && pageSize > 0
      requires forall q :: q in nodes && q != root ==> nodes[q].inodes != []
      modifies this`pages, this`nodes, this`freed, this`room, this`written
      ensures Valid(None) && Contents() == old(Contents()) && Roomy()
      ensures nodes.Keys == old(nodes.Keys) - {n}
      ensures forall q :: q in nodes && q != root ==> nodes[q].inodes != []
      ensures written == old(written) + ids && AllPages() == old(AllPages()) + multiset(ids)
      ensures forall q :: q in old(pages) ==> q in pages && pages[q] == old(pages[q])
    {
      hide Sound, TreeIds, Leaves, Roomy, Bottom, SplitInto, Unused, HasCachedKid, Pages;
      ghost var was, freedBefore := S(), freed;
      ghost var j := ParentOf(was, root, height, None, n);
      var p := nodes[n].parent.value;
      BottomHere(was, root, height, p, n, j);
      if !nodes[n].isLeaf { BranchHasInodes(was, root, height, None, n); }
      ids := SpillNode(n, p, true, j, None);
      PagesMoved(was, S(), root, height, freedBefore, n, ids);
    }

    // The part of spill at the root: while it does not fit a page, a new root goes above it.
    method SpillRoot()
      requires RootOnly(S(), root, height) && Roomy() && pageSize > 0
      modifies this`pages, this`root, this`nodes, this`freed, this`room, this`written, this`height
      ensures Valid(None) && nodes == map[] && root in written && Contents() == old(Contents()) && Roomy()
      ensures old(written) <= written
      ensures AllPages() + Unpaged(old(root)) == old(AllPages()) + multiset(written[|old(written)|..])
      ensures forall q :: q in old(pages) ==> q in pages && pages[q] == old(pages[q])
    {
      hide Sound, TreeIds, Leaves, Roomy, Ledger;
      var hasPage := root != 0;
      assert written[|old(written)|..] == [];
      LedgerOpens(AllPages(), root);
      while true
        invariant RootOnly(S(), root, height) && Roomy() && Contents() == old(Contents())
        invariant hasPage ==> root == old(root) != 0
        invariant old(written) <= written
        invariant Ledger(AllPages(), old(AllPages()), root, old(root), written[|old(written)|..], hasPage)
        invariant forall q :: q in old(pages) ==> q in pages && pages[q] == old(pages[q])
        decreases |nodes[root].inodes|
      {
        ghost var allBefore, rootBefore, writtenBefore := AllPages(), root, written;
        var node := new Nodes.Node(nodes[root].isLeaf, nodes[root].inodes);
        var small := node.SizeLessThan(pageSize);
        if |node.inodes| <= MIN_KEYS_PER_PAGE * 2 || small {
          WriteRoot(hasPage);
          LedgerClosed(allBefore, AllPages(), old(AllPages()), rootBefore, root, old(root), writtenBefore[|old(written)|..], hasPage);
          assert written[|old(written)|..] == writtenBefore[|old(written)|..] + [root];
          return;
        }
        ghost var ids := GrowRoot(hasPage);
        assert written[|old(written)|..] == writtenBefore[|old(written)|..] + ids;
        LedgerGrows(allBefore, AllPages(), old(AllPages()), rootBefore, root, old(root), writtenBefore[|old(written)|..], ids, hasPage);
        hasPage := false;
      }
    }

    // The root fits: write it to a new page.
    method WriteRoot(hasPage: bool)
      requires RootOnly(S(), root, height) && Roomy() && pageSize > 0
      modifies this`pages, this`root, this`nodes, this`freed, this`room, this`written
      ensures Valid(None) && nodes == map[] && written == old(written) + [root] && Contents() == old(Contents()) && Roomy()
      ensures AllPages() + multiset{old(root)} == old(AllPages()) + multiset{root} + if hasPage then multiset{old(root)} else multiset{}
      ensures forall q :: q in old(pages) ==> q in pages && pages[q] == old(pages[q])
    {
      hide Sound, TreeIds, Leaves, HasRoom, NodeSize, Pages;
      ghost var before := room;
      var id := Allocate(nodes[root].inodes);
      RootWrittenKeeps(S(), root, height, id);
      WrittenBalanced(S(), root, height, id, freed, hasPage);
      if hasPage { freed := freed + [root]; }
      RoomForOneMore(pages, before, written, pageSize, id, Page(nodes[root].isLeaf, nodes[root].inodes), room[id]);
      pages := pages[id := Page(nodes[root].isLeaf, nodes[root].inodes)];
      nodes := map[];
      written := written + [id];
      root := id;
    }

    // The root does not fit: a new root above it refers to its pieces.
    method GrowRoot(hasPage: bool) returns (ghost ids: seq<Pgid>)
      requires RootOnly(S(), root, height) && Roomy() && pageSize > 0
      requires |nodes[root].inodes| > MIN_KEYS_PER_PAGE * 2 && NodeSize(nodes[root].inodes) >= pageSize
      modifies this`pages, this`root, this`nodes, this`freed, this`room, this`written, this`height
      ensures RootOnly(S(), root, height) && Contents() == old(Contents()) && Roomy() && written == old(written) + ids
      ensures |nodes[root].inodes| < |old(nodes[root].inodes)|
      ensures AllPages() + multiset{old(root)} ==
        old(AllPages()) + multiset{root} + multiset(ids) + if hasPage then multiset{old(root)} else multiset{}
      ensures forall q :: q in old(pages) ==> q in pages && pages[q] == old(pages[q])
    {
      hide Sound, TreeIds, Leaves, Roomy, Bottom, SplitInto, Unused, NodeSize;
      ghost var s, freedBefore := S(), freed;
      if hasPage { freed := freed + [root]; }
      var id;
      ghost var rest;
      id, rest := PushRoot();
      ghost var t := S();
      ids := SpillNode(id, root, false, 0, Some(root));
      ghost var pieces :| SplitInto(s.Inodes(old(root)), pieces, pageSize, fill) && |pieces| == |ids|;
      SeveralPieces(s.Inodes(old(root)), pieces, pageSize, fill);
      Strong(S(), root, height, root);
      Regrown(old(TreeIds(S(), [root], height)), TreeIds(t, [root], height), TreeIds(S(), [root], height), rest, old(root), root, id, ids);
      Balanced(TreeIds(S(), [root], height), old(TreeIds(S(), [root], height)), freedBefore, old(root), root, ids, hasPage);
    }

    // The new root, with one inode, above the old one.
    method PushRoot() returns (id: Pgid, ghost rest: seq<Pgid>)
      requires RootOnly(S(), root, height) && nodes[root].inodes != []
      modifies this`root, this`nodes, this`height
      ensures Bottom(S(), root, height, Some(root), root, id, 0) && root != 0 && Contents() == old(Contents())
      ensures nodes.Keys == {root, id} && |nodes[root].inodes| == 1
      ensures nodes[id].inodes == old(nodes[root].inodes) && nodes[id].isLeaf == old(nodes[root].isLeaf)
      ensures old(TreeIds(S(), [root], height)) == [old(root)] + rest && TreeIds(S(), [root], height) == [root, id] + rest
    {
      hide Sound, TreeIds, Leaves, Bottom;
      FreshExists(pages.Keys + nodes.Keys);
      var top: Pgid :| top != 0 && top !in pages.Keys + nodes.Keys;
      FreshExists(pages.Keys + nodes.Keys + {top});
      id :| id != 0 && id !in pages.Keys + nodes.Keys + {top};
      RootPushedKeeps(S(), root, height, top, id);
      rest := TreeIds(S(), [root], height)[1..];
      var key := FirstKey(nodes[root].inodes);
      nodes := map[
        top := Cached(false, false, [], None, [Inode(0, id, key, [])]),
        id := Cached(nodes[root].isLeaf, false, key, Some(top), nodes[root].inodes)];
      root := top;
      height := height + 1;
    }

    // spill of the bucket.
    method Spill()
      requires Valid(None) && root in nodes && (root == 0 ==> height == 0) && Roomy() && pageSize > 0
      requires forall q :: q in nodes && q != root ==> nodes[q].inodes != []
      modifies this`pages, this`root, this`nodes, this`freed, this`room, this`written, this`height
      ensures Valid(None) && nodes == map[] && root in written && Contents() == old(Contents()) && Roomy()
      ensures old(written) <= written
      ensures AllPages() + Unpaged(old(root)) == old(AllPages()) + multiset(written[|old(written)|..])
      ensures forall q :: q in old(pages) ==> q in pages && pages[q] == old(pages[q])
    {
      hide Sound, TreeIds, Leaves, Roomy, Pages;
      assert written[|old(written)|..] == [];
      if root != 0 { SpillChildren(); } else { OnlyRoot(S(), root); }
      ghost var mid := written;
      SpillRoot();
      assert written[|old(written)|..] == mid[|old(written)|..] + written[|mid|..];
    }

    // What a commit does to the bucket's tree: rebalance and spill.
    method RebalanceAndSpill(order: seq<Pgid>)
      requires Valid(None) && root in nodes && (root == 0 ==> height == 0) && Roomy() && pageSize > 0
      requires forall n :: n in nodes ==> n in order
      modifies this
      ensures Valid(None) && nodes == map[] && root in written && Contents() == old(Contents()) && Roomy()
      ensures old(written) <= written
      ensures AllPages() + Unpaged(old(root)) == old(AllPages()) + multiset(written[|old(written)|..])
      ensures forall q :: q in old(pages) ==> q in pages && pages[q] == old(pages[q])
    {
      hide Sound, TreeIds, Leaves, Roomy, Pages;
      RebalanceAll(order);
      Spill();
    }

    method Apply(edit: Edit) returns (outcome: Buckets.Outcome)
      requires Editable()
      modifies this`nodes
      ensures outcome == EditOutcome(old(Buckets.Find(Contents(), edit.key)), edit)
      ensures Editable() && (root in nodes || nodes == old(nodes)) && AllPages() == old(AllPages())
      ensures Contents() == AppliedOne(old(Contents()), edit)
    {
      hide Sound, TreeIds, Leaves, Inserted, Removed, Aligned, Buckets.Find, Buckets.PutOutcome, Buckets.DeleteOutcome;
      match edit
      case Put(key, value) => outcome := Put(key, value);
      case Delete(key) => outcome := Delete(key);
    }

    // A transaction on the bucket: puts and deletes, then the commit. Its pages then hold the items as the
    // edits leave them, and those of before are all still there.
    method Transact(edits: seq<Edit>)
      requires Editable() && nodes == map[] && Roomy() && pageSize > 0
      modifies this
      ensures Valid(None) && nodes == map[] && Roomy() && old(written) <= written
      ensures Contents() == Applied(old(Contents()), edits)
      ensures (root == old(root) && pages == old(pages) && AllPages() == old(AllPages())) ||
        (root in written && AllPages() + Unpaged(old(root)) == old(AllPages()) + multiset(written[|old(written)|..]))
      ensures forall q :: q in old(pages) ==> q in pages && pages[q] == old(pages[q])
    {
      hide Sound, TreeIds, Leaves, Roomy, Pages, Inserted, Removed, Aligned, Buckets.Find, Buckets.PutOutcome, Buckets.DeleteOutcome;
      assert edits[..0] == [];
      for i := 0 to |edits|
        invariant Editable() && (root in nodes || nodes == map[]) && AllPages() == old(AllPages())
        invariant Contents() == Applied(old(Contents()), edits[..i])
        invariant pages == old(pages) && room == old(room) && written == old(written) && root == old(root)
      {
        assert edits[..i + 1][..i] == edits[..i];
        var outcome := Apply(edits[i]);
      }
      assert edits[..|edits|] == edits;
      assert written[|written|..] == [];
      if root in nodes {
        var order := AnyOrder(nodes.Keys);
        RebalanceAndSpill(order);
      }
    }
  }

  // Neighbours under p, of which one may be short of inodes.
  ghost predicate Joinable(s: Store, root: Pgid, h: nat, p: Pgid, left: Pgid, right: Pgid, j: nat, weak: Option<Pgid>) {
    && Neighbours(s, root, h, p, j) && weak != Some(p)
    && s.Inodes(p)[j - 1].pgid == left && s.Inodes(p)[j].pgid == right
    && (weak == Some(left) || weak == Some(right)) && s.Inodes(left) + s.Inodes(right) != []
  }

  lemma BothCached(s: Store, root: Pgid, h: nat, p: Pgid, j: nat)
    requires p in TreeIds(s, [root], h) && p in s.nodes && !s.IsLeaf(p) && 0 < j < |s.Inodes(p)|
    requires s.Inodes(p)[j - 1].pgid in s.nodes && s.Inodes(p)[j].pgid in s.nodes
    ensures Neighbours(s, root, h, p, j)
  {
  }

  // The nodes that deletes and merges have left for rebalance.
  ghost function Marks(nodes: map<Pgid, Cached>): set<Pgid> {
    set q | q in nodes && nodes[q].unbalanced
  }

  lemma {:induction false} CollapseEffect(s: Store, root: Pgid, h: nat, c: Pgid, freed: seq<Pgid>)
    requires OneChild(s, root, h, c)
    ensures c != root && c != 0 && h > 0
    ensures var t := s.(nodes := Collapsed(s, root, c));
      && Sound(t, root, h - 1, None) && Leaves(t, [root], h - 1) == Leaves(s, [root], h)
      && Pages(t, root, h - 1, freed + [c]) == Pages(s, root, h, freed)
      && |TreeIds(t, [root], h - 1)| <= |TreeIds(s, [root], h)|
      && Marks(t.nodes) <= Marks(s.nodes) && root in t.nodes
      && forall q :: q != root && EmptyAt(t, q) ==> EmptyAt(s, q)
  {
    hide Sound, Leaves, TreeIds, Collapsed;
    var t := s.(nodes := Collapsed(s, root, c));
    CollapsedKeeps(s, root, h, c);
    CollapsedLooks(s, root, c);
    forall q | q != root && EmptyAt(t, q) ensures EmptyAt(s, q) { assert t.Inodes(q) == s.Inodes(q); }
    var ids, ids' := TreeIds(s, [root], h), TreeIds(t, [root], h - 1);
    assert multiset(freed + [c]) == multiset(freed) + multiset{c};
    assert multiset(ids') + multiset(freed + [c]) == (multiset(ids') + multiset{c}) + multiset(freed);
    SmallerTree(ids, freed, ids', freed + [c]);
  }

  lemma {:induction false} ReparentedMarks(nodes: map<Pgid, Cached>, kids: seq<Pgid>, p: Pgid)
    ensures Marks(Reparented(nodes, kids, p)) == Marks(nodes)
  {
    ReparentedIs(nodes, kids, p);
  }

  lemma SmallerTree(ids: seq<Pgid>, freed: seq<Pgid>, ids': seq<Pgid>, freed': seq<Pgid>)
    requires multiset(ids) + multiset(freed) == multiset(ids') + multiset(freed') && |freed| <= |freed'|
    ensures |ids'| <= |ids|
  {
    assert |multiset(ids) + multiset(freed)| == |ids| + |freed|;
    assert |multiset(ids') + multiset(freed')| == |ids'| + |freed'|;
  }

  datatype Edit = Put(key: Key, value: seq<Byte>) | Delete(key: Key)

  ghost function EditOutcome(found: Option<Inode>, edit: Edit): Buckets.Outcome {
    match edit
    case Put(key, value) => Buckets.PutOutcome(found, key, value)
    case Delete(_) => Buckets.DeleteOutcome(found)
  }

  // The items after the edits, one after the other; an edit that fails leaves them as they are.
  ghost function Applied(items: seq<Inode>, edits: seq<Edit>): seq<Inode> {
    if edits == [] then items else AppliedOne(Applied(items, edits[..|edits| - 1]), edits[|edits| - 1])
  }

  ghost function AppliedOne(items: seq<Inode>, edit: Edit): seq<Inode> {
    if EditOutcome(Buckets.Find(items, edit.key), edit) != Buckets.Done then items else
      match edit
      case Put(key, value) => Inserted(items, key, Inode(0, 0, key, value))
      case Delete(key) => Removed(items, key)
  }

  // What the last edit of a key that does not fail leaves under it.
  ghost function Latest(items: seq<Inode>, edits: seq<Edit>, key: Key): Option<Inode> {
    if edits == [] then Buckets.Find(items, key) else
      var last, before := edits[|edits| - 1], Latest(items, edits[..|edits| - 1], key);
      if last.key != key || EditOutcome(before, last) != Buckets.Done then before
      else if last.Put? then Some(Inode(0, 0, key, last.value))
      else None
  }

  // So the bucket is a map from keys to items, in order.
  lemma {:induction false} AppliedIsLatest(items: seq<Inode>, edits: seq<Edit>, key: Key)
    requires Ascending(InodeKeys(items))
    ensures Ascending(InodeKeys(Applied(items, edits)))
    ensures Buckets.Find(Applied(items, edits), key) == Latest(items, edits, key)
  {
    hide Ascending, AppliedOne, EditOutcome, Buckets.Find;
    if edits != [] {
      AppliedIsLatest(items, edits[..|edits| - 1], key);
      OneIsLatest(Applied(items, edits[..|edits| - 1]), edits[|edits| - 1], key);
    }
  }

  lemma OneIsLatest(items: seq<Inode>, edit: Edit, key: Key)
    requires Ascending(InodeKeys(items))
    ensures var after, found := AppliedOne(items, edit), Buckets.Find(items, key);
      && Ascending(InodeKeys(after))
      && Buckets.Find(after, key) ==
        if edit.key != key || EditOutcome(found, edit) != Buckets.Done then found
        else if edit.Put? then Some(Inode(0, 0, key, edit.value))
        else None
  {
    hide Ascending, Inserted, Removed, Buckets.Find, EditOutcome;
    if EditOutcome(Buckets.Find(items, edit.key), edit) == Buckets.Done {
      if edit.Put? { PutIsUpdate(items, Inode(0, 0, edit.key, edit.value)); } else { DelIsRemoval(items, edit.key); }
      Buckets.FoundIsMember(items, key);
      Buckets.FoundIsMember(AppliedOne(items, edit), key);
    }
  }

  // A key of the right size that holds no nested bucket.
  ghost predicate Plain(items: seq<Inode>, key: Key) {
    1 <= |key| <= 32768 && forall item :: item in items && item.key == key ==> item.flags % 2 == 0
  }

  lemma {:induction false} StaysPlain(items: seq<Inode>, edits: seq<Edit>, key: Key)
    requires Ascending(InodeKeys(items)) && Plain(items, key)
    ensures Plain(Applied(items, edits), key)
  {
    hide Ascending, AppliedOne;
    if edits != [] {
      var before := Applied(items, edits[..|edits| - 1]);
      StaysPlain(items, edits[..|edits| - 1], key);
      AppliedIsLatest(items, edits[..|edits| - 1], key);
      PlainAfter(before, edits[|edits| - 1], key);
    }
  }

  lemma PlainAfter(items: seq<Inode>, edit: Edit, key: Key)
    requires Ascending(InodeKeys(items)) && Plain(items, key)
    ensures Plain(AppliedOne(items, edit), key)
  {
    hide Ascending, Inserted, Removed, Buckets.Find, EditOutcome;
    if edit.Put? { PutIsUpdate(items, Inode(0, 0, edit.key, edit.value)); } else { DelIsRemoval(items, edit.key); }
  }

  // Whatever comes before it, the last edit of a plain key, with a value of the right size, is what the
  // bucket then holds under the key.
  lemma {:induction false} LastEditWins(items: seq<Inode>, edits: seq<Edit>, i: nat)
    requires Ascending(InodeKeys(items)) && i < |edits| && Plain(items, edits[i].key)
    requires edits[i].Put? ==> |edits[i].value| <= 2147483646
    requires forall k :: i < k < |edits| ==> edits[k].key != edits[i].key
    ensures forall item: Inode :: item.key == edits[i].key ==>
      (item in Applied(items, edits) <==> edits[i].Put? && item == Inode(0, 0, item.key, edits[i].value))
    decreases |edits|
  {
    hide Ascending, AppliedOne;
    var n := |edits| - 1;
    var before := Applied(items, edits[..n]);
    AppliedIsLatest(items, edits[..n], edits[i].key);
    if i < n {
      LastEditWins(items, edits[..n], i);
      OthersStay(before, edits[n], edits[i].key);
    } else {
      StaysPlain(items, edits[..n], edits[i].key);
      EditTakes(before, edits[n]);
    }
  }

  lemma OthersStay(items: seq<Inode>, edit: Edit, key: Key)
    requires Ascending(InodeKeys(items)) && edit.key != key
    ensures forall item: Inode :: item.key == key ==> (item in AppliedOne(items, edit) <==> item in items)
  {
    hide Ascending, Inserted, Removed, Buckets.Find, EditOutcome;
    if edit.Put? { PutIsUpdate(items, Inode(0, 0, edit.key, edit.value)); } else { DelIsRemoval(items, edit.key); }
  }

  lemma EditTakes(items: seq<Inode>, edit: Edit)
    requires Ascending(InodeKeys(items)) && Plain(items, edit.key) && (edit.Put? ==> |edit.value| <= 2147483646)
    ensures forall item: Inode :: item.key == edit.key ==>
      (item in AppliedOne(items, edit) <==> edit.Put? && item == Inode(0, 0, item.key, edit.value))
  {
    hide Ascending, Inserted, Removed, Buckets.Find, Buckets.PutOutcome, Buckets.DeleteOutcome;
    if edit.Put? {
      Buckets.PutIsDone(items, edit.key, edit.value);
      PutIsUpdate(items, Inode(0, 0, edit.key, edit.value));
    } else {
      Buckets.PutIsDone(items, edit.key, []);
      DelIsRemoval(items, edit.key);
    }
  }

  // A key that no edit names keeps what it held.
  lemma {:induction false} UnnamedStay(items: seq<Inode>, edits: seq<Edit>, key: Key)
    requires Ascending(InodeKeys(items)) && forall e :: e in edits ==> e.key != key
    ensures forall item: Inode :: item.key == key ==> (item in Applied(items, edits) <==> item in items)
  {
    hide Ascending, AppliedOne;
    if edits != [] {
      var n := |edits| - 1;
      UnnamedStay(items, edits[..n], key);
      AppliedIsLatest(items, edits[..n], key);
      OthersStay(Applied(items, edits[..n]), edits[n], key);
    }
  }

  // The iteration over a map, in whatever order.
  method AnyOrder(ids: set<Pgid>) returns (order: seq<Pgid>)
    ensures forall id :: id in order <==> id in ids
  {
    var rest := ids;
    order := [];
    while rest != {}
      invariant rest <= ids && forall id :: id in order <==> id in ids - rest
    {
      var id :| id in rest;
      order, rest := order + [id], rest - {id};
    }
  }

  // What a reader finds in the pages afterwards: in every branch the keys ascend, there are at least two
  // of them, and each is the first key of the page that it refers to; no page but a root leaf is empty;
  // and the items of the leaves ascend.
  lemma {:induction false} ReadsBack(s: Store, root: Pgid, h: nat, p: Pgid)
    requires Sound(s, root, h, None) && s.nodes == map[] && p in TreeIds(s, [root], h)
    ensures Ascending(InodeKeys(s.Inodes(p))) && Ascending(InodeKeys(Leaves(s, [root], h)))
    ensures p != root ==> s.Inodes(p) != []
    ensures !s.IsLeaf(p) ==> |s.Inodes(p)| >= 2
    ensures !s.IsLeaf(p) ==> forall i :: 0 <= i < |s.Inodes(p)| ==>
      var e := s.Inodes(p)[i];
      e.pgid in s.pages && s.pages[e.pgid].inodes != [] && e.key == s.pages[e.pgid].inodes[0].key
  {
    hide TreeIds, Layered, Distinct, Bounded, LinkedUp;
    BranchKeysAscend(s, root, h, p);
    BoundedLeaves(s, root, h, None, None);
    assert StockedAt(s, root, None, TreeIds(s, [root], h), p);
    if !s.IsLeaf(p) {
      forall i | 0 <= i < |s.Inodes(p)| ensures var e := s.Inodes(p)[i];
        e.pgid in s.pages && s.pages[e.pgid].inodes != [] && e.key == s.pages[e.pgid].inodes[0].key
      {
        var c := s.Inodes(p)[i].pgid;
        LinkAt(s, root, h, None, p, i);
        assert KidsOf(s, p)[i] == c;
        KidInTree(s, [root], h, p, c);
        assert StockedAt(s, root, None, TreeIds(s, [root], h), c);
      }
    }
  }

  lemma NotEmpty(s: Store, n: Pgid)
    ensures n in s.nodes && s.nodes[n].inodes != [] ==> !EmptyAt(s, n)
    ensures !EmptyAt(s, n) && n in s.nodes ==> s.nodes[n].inodes != []
    ensures n !in s.nodes ==> !EmptyAt(s, n)
  {
  }

  lemma SamePages(s: Store, t: Store, root: Pgid, h: nat, freed: seq<Pgid>)
    requires TreeIds(t, [root], h) == TreeIds(s, [root], h)
    ensures Pages(t, root, h, freed) == Pages(s, root, h, freed)
  {
    hide TreeIds;
  }

  lemma {:induction false} RootMaterialized(s: Store, root: Pgid, h: nat)
    requires Sound(s, root, h, None)
    ensures var t := s.(nodes := Materialized(s, root, None));
      Sound(t, root, h, None) && Leaves(t, [root], h) == Leaves(s, [root], h) && TreeIds(t, [root], h) == TreeIds(s, [root], h)
  {
    hide Layered, TreeIds, Leaves, Distinct, Bounded;
    var t, ids := s.(nodes := Materialized(s, root, None)), TreeIds(s, [root], h);
    MaterializeIsInvisible(s, root, None);
    LevelFrame(s, t, [root], h);
    BoundedFrame(s, t, root, h, None, None);
    RootOnTop(s, root, h);
    forall q, k | q in ids && !t.IsLeaf(q) && 0 <= k < |t.Inodes(q)| ensures Link(t, q, k) {
      assert Link(s, q, k) && KidsOf(s, q)[k] == s.Inodes(q)[k].pgid;
      KidInTree(s, [root], h, q, s.Inodes(q)[k].pgid);
    }
    forall q | q in ids ensures StockedAt(t, root, None, ids, q) { assert StockedAt(s, root, None, ids, q); }
  }

  lemma OnlyRoot(s: Store, root: Pgid)
    requires Sound(s, root, 0, None) && root in s.nodes
    ensures s.nodes.Keys == {root}
  {
  }

  lemma SeveralPieces(inodes: seq<Inode>, pieces: seq<seq<Inode>>, pageSize: nat, threshold: int)
    requires SplitInto(inodes, pieces, pageSize, threshold)
    requires |inodes| > MIN_KEYS_PER_PAGE * 2 && NodeSize(inodes) >= pageSize
    ensures 1 < |pieces| < |inodes|
  {
    FewPieces(inodes, pieces, pageSize, threshold);
  }

  ghost function Times(m: multiset<Pgid>, q: Pgid): nat {
    m[q]
  }

  lemma SameTimes(a: multiset<Pgid>, b: multiset<Pgid>)
    requires forall q :: Times(a, q) == Times(b, q)
    ensures a == b
  {
    forall q: Pgid ensures a[q] == b[q] { assert Times(a, q) == Times(b, q); }
  }

  lemma WrittenBalanced(s: Store, root: Pgid, h: nat, id: Pgid, freed: seq<Pgid>, hasPage: bool)
    requires RootOnly(s, root, h) && FreshPage(s, id)
    ensures Pages(RootWritten(s, root, id), id, h, if hasPage then freed + [root] else freed) + multiset{root}
      == Pages(s, root, h, freed) + multiset{id} + if hasPage then multiset{root} else multiset{}
  {
    hide Sound, TreeIds, Leaves;
    RootWrittenKeeps(s, root, h, id);
    var was, now := TreeIds(s, [root], h), TreeIds(RootWritten(s, root, id), [id], h);
    Swapped(was, now, was[1..], root, id);
    var none: seq<Pgid> := [];
    assert multiset(none) == multiset{};
    Balanced(now, was, freed, root, id, none, hasPage);
  }

  lemma Balanced(now: seq<Pgid>, was: seq<Pgid>, freed: seq<Pgid>, oldRoot: Pgid, root: Pgid, ids: seq<Pgid>, hasPage: bool)
    requires multiset(now) + multiset{oldRoot} == multiset(was) + multiset{root} + multiset(ids)
    ensures multiset(now) + multiset(if hasPage then freed + [oldRoot] else freed) + multiset{oldRoot}
      == multiset(was) + multiset(freed) + multiset{root} + multiset(ids) + if hasPage then multiset{oldRoot} else multiset{}
  {
    var a := multiset(now) + multiset(if hasPage then freed + [oldRoot] else freed) + multiset{oldRoot};
    var b := multiset(was) + multiset(freed) + multiset{root} + multiset(ids) + if hasPage then multiset{oldRoot} else multiset{};
    assert multiset(freed + [oldRoot]) == multiset(freed) + multiset{oldRoot};
    forall q: Pgid ensures Times(a, q) == Times(b, q) {
      assert (multiset(now) + multiset{oldRoot})[q] == (multiset(was) + multiset{root} + multiset(ids))[q];
    }
    SameTimes(a, b);
  }

  lemma Swapped(was: seq<Pgid>, now: seq<Pgid>, rest: seq<Pgid>, a: Pgid, b: Pgid)
    requires was == [a] + rest && now == [b] + rest
    ensures multiset(now) + multiset{a} == multiset(was) + multiset{b}
  {
  }

  lemma Regrown(was: seq<Pgid>, pushed: seq<Pgid>, now: seq<Pgid>, rest: seq<Pgid>, oldRoot: Pgid, root: Pgid, id: Pgid, ids: seq<Pgid>)
    requires was == [oldRoot] + rest && pushed == [root, id] + rest
    requires multiset(now) + multiset{id} == multiset(pushed) + multiset(ids)
    ensures multiset(now) + multiset{oldRoot} == multiset(was) + multiset{root} + multiset(ids)
  {
    var a, b := multiset(now) + multiset{oldRoot}, multiset(was) + multiset{root} + multiset(ids);
    assert multiset(was) == multiset{oldRoot} + multiset(rest);
    assert pushed == [root] + ([id] + rest);
    assert multiset(pushed) == multiset{root} + multiset{id} + multiset(rest);
    forall q: Pgid ensures Times(a, q) == Times(b, q) {
      assert (multiset(now) + multiset{id})[q] == (multiset(pushed) + multiset(ids))[q];
    }
    SameTimes(a, b);
  }

  lemma LedgerClosed(before: multiset<Pgid>, after: multiset<Pgid>, was: multiset<Pgid>, root: Pgid, id: Pgid, oldRoot: Pgid,
      written: seq<Pgid>, hasPage: bool)
    requires Ledger(before, was, root, oldRoot, written, hasPage) && (hasPage ==> root == oldRoot != 0)
    requires after + multiset{root} == before + multiset{id} + if hasPage then multiset{root} else multiset{}
    ensures after + Unpaged(oldRoot) == was + multiset(written + [id])
  {
    var a, b := after + Unpaged(oldRoot), was + multiset(written + [id]);
    var c, d := before + multiset{oldRoot}, was + multiset{root} + multiset(written) + if hasPage || oldRoot == 0 then multiset{} else multiset{oldRoot};
    var e, f := after + multiset{root}, before + multiset{id} + if hasPage then multiset{root} else multiset{};
    assert multiset(written + [id]) == multiset(written) + multiset{id};
    forall q: Pgid ensures Times(a, q) == Times(b, q) { assert c[q] == d[q] && e[q] == f[q]; }
    SameTimes(a, b);
  }

  lemma LedgerGrows(before: multiset<Pgid>, after: multiset<Pgid>, was: multiset<Pgid>, root: Pgid, top: Pgid, oldRoot: Pgid,
      written: seq<Pgid>, ids: seq<Pgid>, hasPage: bool)
    requires Ledger(before, was, root, oldRoot, written, hasPage) && (hasPage ==> root == oldRoot != 0)
    requires after + multiset{root} == before + multiset{top} + multiset(ids) + if hasPage then multiset{root} else multiset{}
    ensures Ledger(after, was, top, oldRoot, written + ids, false)
  {
    var a, b := after + multiset{oldRoot}, was + multiset{top} + multiset(written + ids) + if oldRoot == 0 then multiset{} else multiset{oldRoot};
    var c, d := before + multiset{oldRoot}, was + multiset{root} + multiset(written) + if hasPage || oldRoot == 0 then multiset{} else multiset{oldRoot};
    var e, f := after + multiset{root}, before + multiset{top} + multiset(ids) + if hasPage then multiset{root} else multiset{};
    assert multiset(written + ids) == multiset(written) + multiset(ids);
    forall q: Pgid ensures Times(a, q) == Times(b, q) { assert c[q] == d[q] && e[q] == f[q]; }
    SameTimes(a, b);
  }

  lemma LedgerOpens(all: multiset<Pgid>, root: Pgid)
    ensures Ledger(all, all, root, root, [], root != 0)
  {
  }

  // Nothing is given back for an inline root, which has no page.
  ghost function Unpaged(root: Pgid): multiset<Pgid> {
    if root == 0 then multiset{root} else multiset{}
  }

  // The pages so far, where a root above the old one has no page yet.
  ghost predicate Ledger(all: multiset<Pgid>, was: multiset<Pgid>, root: Pgid, oldRoot: Pgid, written: seq<Pgid>, hasPage: bool) {
    all + multiset{oldRoot} == was + multiset{root} + multiset(written)
      + if hasPage || oldRoot == 0 then multiset{} else multiset{oldRoot}
  }

  predicate HasCachedKid(nodes: map<Pgid, Cached>, n: Pgid) {
    exists c :: c in nodes && nodes[c].parent == Some(n)
  }

  lemma FewerNodes(before: map<Pgid, Cached>, after: map<Pgid, Cached>, n: Pgid)
    requires n in before && after.Keys == before.Keys - {n}
    ensures |after| < |before|
  {
    assert |after.Keys| == |before.Keys| - 1;
  }

  lemma PagesMoved(s: Store, t: Store, root: Pgid, h: nat, freed: seq<Pgid>, n: Pgid, ids: seq<Pgid>)
    requires multiset(TreeIds(t, [root], h)) + multiset{n} == multiset(TreeIds(s, [root], h)) + multiset(ids)
    ensures Pages(t, root, h, freed + [n]) == Pages(s, root, h, freed) + multiset(ids)
  {
    hide TreeIds;
    assert multiset(freed + [n]) == multiset(freed) + multiset{n};
    var a, b, f := multiset(TreeIds(t, [root], h)), multiset(TreeIds(s, [root], h)), multiset(freed);
    assert a + (f + multiset{n}) == (a + multiset{n}) + f;
    assert (b + multiset(ids)) + f == (b + f) + multiset(ids);
  }

  // Some cached node has no cached kid.
  lemma {:induction false} BottomExists(s: Store, root: Pgid, h: nat) returns (n: Pgid)
    requires Sound(s, root, h, None) && s.nodes.Keys != {root} && root in s.nodes
    ensures n in s.nodes && n != root && !HasCachedKid(s.nodes, n)
  {
    hide TreeIds, Bounded, Whole, LinkedUp, Stocked;
    assert exists q :: q in s.nodes && q != root;
    var q :| q in s.nodes && q != root;
    InTree(s, root, h, None, q);
    var d, lo, hi := BoundedAt(s, root, h, None, None, q);
    n := BottomUnder(s, root, h, q, d);
  }

  lemma {:induction false} BottomUnder(s: Store, root: Pgid, h: nat, q: Pgid, d: nat) returns (n: Pgid)
    requires Sound(s, root, h, None) && q in s.nodes && q != root && Whole(s, [q], d)
    ensures n in s.nodes && n != root && !HasCachedKid(s.nodes, n)
    decreases d
  {
    hide TreeIds, Bounded, Whole, LinkedUp, Stocked, Apart;
    n := q;
    if HasCachedKid(s.nodes, q) {
      var c :| c in s.nodes && s.nodes[c].parent == Some(q);
      var j := ParentOf(s, root, h, None, c);
      BranchHeight(s, q, d);
      assert KidsOf(s, q)[j] == c;
      KidSubtrees(s, q, d, j);
      n := BottomUnder(s, root, h, c, d - 1);
    }
  }

  lemma {:induction false} BottomHere(s: Store, root: Pgid, h: nat, p: Pgid, n: Pgid, j: nat)
    requires Sound(s, root, h, None) && n in s.nodes && n != root && n != p && !HasCachedKid(s.nodes, n)
    requires p in TreeIds(s, [root], h) && p in s.nodes && !s.IsLeaf(p)
    requires j < |s.Inodes(p)| && s.Inodes(p)[j].pgid == n && s.Inodes(p)[j].key == s.nodes[n].key
    ensures Bottom(s, root, h, None, p, n, j)
  {
    hide TreeIds, Bounded, Whole, Stocked;
    if !s.IsLeaf(n) {
      forall c | c in KidsOf(s, n) ensures c !in s.nodes {
        var i :| 0 <= i < |s.Inodes(n)| && KidsOf(s, n)[i] == c;
        InTree(s, root, h, None, n);
        LinkAt(s, root, h, None, n, i);
      }
    }
  }

  lemma NothingPut(inodes: seq<Inode>, j: nat, pieces: seq<seq<Inode>>)
    requires j < |inodes|
    ensures PutSoFar(inodes, j, pieces, []) == inodes
  {
  }

  lemma NothingWritten(pages: map<Pgid, Page>, isLeaf: bool)
    ensures Written(pages, isLeaf, [], []) == pages
  {
  }

  lemma OneWritten(pages: map<Pgid, Page>, isLeaf: bool, pieces: seq<seq<Inode>>, ids: seq<Pgid>, id: Pgid)
    requires |ids| < |pieces|
    ensures Written(pages, isLeaf, pieces[..|ids| + 1], ids + [id])
         == Written(pages, isLeaf, pieces[..|ids|], ids)[id := Page(isLeaf, pieces[|ids|])]
  {
    assert (ids + [id])[..|ids|] == ids && pieces[..|ids| + 1][..|ids|] == pieces[..|ids|];
  }

  lemma FirstsNotEmpty(inodes: seq<Inode>, j: nat, pieces: seq<seq<Inode>>, i: nat)
    requires j < |inodes| && FirstsFit(inodes, j, pieces) && i < |pieces|
    ensures FirstKey(pieces[i]) != []
  {
  }

  lemma ParentAscends(s: Store, root: Pgid, h: nat, weak: Option<Pgid>, p: Pgid)
    requires Sound(s, root, h, weak) && p in TreeIds(s, [root], h)
    ensures Ascending(InodeKeys(s.Inodes(p)))
  {
    hide TreeIds, Whole, Bounded, LinkedUp, Stocked, Ascending;
    BranchKeysAscend(s, root, h, p);
  }

  lemma PiecesNotEmpty(inodes: seq<Inode>, isLeaf: bool, pieces: seq<seq<Inode>>)
    requires Partition(inodes, isLeaf, pieces)
    ensures pieces != [] && forall k :: 0 <= k < |pieces| ==> pieces[k] != []
  {
  }

  lemma AllPut(s: Store, p: Pgid, n: Pgid, j: nat, pieces: seq<seq<Inode>>, ids: seq<Pgid>)
    requires p in s.nodes && n in s.nodes && n != p && j < |s.Inodes(p)| && |ids| == |pieces| > 0
    ensures Store(Written(s.pages, s.IsLeaf(n), pieces, ids),
        s.nodes[p := s.nodes[p].(inodes := PutSoFar(s.Inodes(p), j, pieces, ids))] - {n}) == Spilled(s, p, n, j, pieces, ids)
    ensures |PutSoFar(s.Inodes(p), j, pieces, ids)| == |s.Inodes(p)| - 1 + |ids|
  {
    assert pieces[..|ids|] == pieces;
  }

  lemma {:induction false} FewPieces(inodes: seq<Inode>, pieces: seq<seq<Inode>>, pageSize: nat, threshold: int)
    requires SplitInto(inodes, pieces, pageSize, threshold)
    ensures |pieces| > 1 ==> |pieces| < |inodes|
    decreases |pieces|
  {
    if |pieces| > 1 {
      CutBounds(inodes, threshold, |pieces[0]|);
      FewPieces(inodes[|pieces[0]|..], pieces[1..], pageSize, threshold);
    }
  }

  lemma FreshExists(used: set<Pgid>)
    ensures exists id: Pgid :: id != 0 && id !in used
  {
    var id := AboveAll(used);
    assert id !in used;
  }

  lemma {:induction false} AboveAll(used: set<Pgid>) returns (id: Pgid)
    ensures id != 0 && forall q :: q in used ==> q < id
    decreases |used|
  {
    id := 1;
    if used != {} {
      var q :| q in used;
      id := AboveAll(used - {q});
      if id <= q { id := q + 1; }
      forall x | x in used ensures x < id { assert x == q || x in used - {q}; }
    }
  }
}
