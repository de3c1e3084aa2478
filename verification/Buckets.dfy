// Get, Put, Delete and ForEach of environment/bbolt/bucket.go, over the cursor and the leaf's node.
module Buckets {
  import opened Cursors
  import opened Inodes
  import opened Keys
  import opened Nodes
  import opened Options
  import opened Trees

  const MAX_KEY_SIZE := 32768
  const MAX_VALUE_SIZE := 0x8000_0000 - 2

  datatype Outcome = Done | ErrKeyRequired | ErrKeyTooLarge | ErrValueTooLarge | ErrIncompatibleValue

  predicate IsBucket(item: Item) {
    item.flags % 2 == BUCKET_LEAF_FLAG
  }

  ghost function Find(items: seq<Item>, key: Key): Option<Item> {
    if HasKey(items, key) then Some(items[Rank(items, key)]) else None
  }

  // The checks of Put and Delete, given what is under the key.
  ghost function PutOutcome(found: Option<Item>, key: Key, value: seq<Byte>): Outcome {
    if key == [] then ErrKeyRequired
    else if |key| > MAX_KEY_SIZE then ErrKeyTooLarge
    else if |value| > MAX_VALUE_SIZE then ErrValueTooLarge
    else DeleteOutcome(found)
  }

  ghost function DeleteOutcome(found: Option<Item>): Outcome {
    if found.Some? && IsBucket(found.value) then ErrIncompatibleValue else Done
  }

  // The item under a key is the only one with the key.
  lemma FoundIsMember(items: seq<Item>, key: Key)
    requires Ascending(InodeKeys(items))
    ensures var found := Find(items, key);
      && (found.Some? ==> found.value in items && found.value.key == key)
      && forall e :: e in items && e.key == key ==> found == Some(e)
  {
    hide Less, Rank;
    RankSeparates(items, key);
    forall e | e in items && e.key == key ensures Find(items, key) == Some(e) {
      var i :| 0 <= i < |items| && items[i] == e;
      RemovedAt(items, i);
    }
  }

  // The checks of Put and Delete pass for a key and a value of the right size, unless the key holds a nested
  // bucket, whose first flag is set.
  lemma PutIsDone(items: seq<Item>, key: Key, value: seq<Byte>)
    requires Ascending(InodeKeys(items))
    ensures PutOutcome(Find(items, key), key, value) == Done <==>
      (1 <= |key| <= 32768 && |value| <= 2147483646 && forall item :: item in items && item.key == key ==> item.flags % 2 == 0)
    ensures DeleteOutcome(Find(items, key)) == Done <==> forall item :: item in items && item.key == key ==> item.flags % 2 == 0
  {
    FoundIsMember(items, key);
  }

  ghost predicate Descends(stack: seq<Ref>) {
    Linked(stack) && forall i :: 0 <= i < |stack| ==> stack[i].node.Branch? && 0 <= stack[i].index < stack[i].node.Count()
  }

  // The tree with another subtree under the position of a stack.
  function Plug(stack: seq<Ref>, t: Tree): Tree
    requires Descends(stack)
    decreases |stack|
  {
    if stack == [] then t else
      Plug(stack[..|stack| - 1], Graft(stack[|stack| - 1], t))
  }

  function Graft(r: Ref, t: Tree): Tree
    requires r.node.Branch? && 0 <= r.index < r.node.Count()
  {
    Branch(r.node.elems[r.index := r.node.elems[r.index].(child := t)])
  }

  lemma {:induction false} GraftItems(r: Ref, t: Tree)
    requires r.node.Branch? && 0 <= r.index < r.node.Count()
    ensures Items(Graft(r, t)) == RestBefore(r) + Items(t) + RestAfter(r)
  {
    var elems, after := r.node.elems, Graft(r, t).elems;
    ItemsOfSplit(after, r.index);
    ItemsOfAt(after, r.index);
    assert after[..r.index] == elems[..r.index] && after[r.index + 1..] == elems[r.index + 1..];
    Regroup(RestBefore(r), Items(t), RestAfter(r), []);
  }

  lemma {:induction false} PlugItems(stack: seq<Ref>, t: Tree)
    requires Descends(stack)
    ensures Items(Plug(stack, t)) == Before(stack) + Items(t) + After(stack)
    decreases |stack|
  {
    hide RestBefore, RestAfter, Items;
    if stack == [] {
      NothingLeft();
      assert [] + Items(t) + [] == Items(t);
    } else {
      var n := |stack| - 1;
      var r := stack[n];
      PlugItems(stack[..n], Graft(r, t));
      GraftItems(r, t);
      var a, b, c, d, e := Before(stack[..n]), RestBefore(r), Items(t), RestAfter(r), After(stack[..n]);
      assert a + (b + c + d) + e == a + b + c + (d + e);
    }
  }

  // Grafting keeps the order when the new items are old ones, or belong under the position.
  lemma {:induction false} GraftOrdered(r: Ref, t: Tree, key: Key)
    requires BelongsAt(r, key) && Ordered(r.node) && Ordered(t)
    requires forall item :: item in Items(t) ==> item in Items(r.node.elems[r.index].child) || item.key == key
    ensures Ordered(Graft(r, t))
    ensures forall item :: item in Items(Graft(r, t)) ==> item in Items(r.node) || item.key == key
  {
    hide Items;
    var elems, after := r.node.elems, Graft(r, t).elems;
    assert ElemKeys(after) == ElemKeys(elems);
    GraftItems(r, t);
    GraftItems(r, elems[r.index].child);
    assert Graft(r, elems[r.index].child) == r.node by {
      assert elems[r.index := elems[r.index].(child := elems[r.index].child)] == elems;
    }
  }

  lemma {:induction false} PlugOrdered(stack: seq<Ref>, t: Tree, was: Tree, key: Key)
    requires Descends(stack) && Ordered(t) && Ordered(was)
    requires stack != [] ==> Ordered(stack[0].node) && was == ChildAt(stack)
    requires forall i :: 0 <= i < |stack| ==> BelongsAt(stack[i], key)
    requires forall item :: item in Items(t) ==> item in Items(was) || item.key == key
    ensures Ordered(Plug(stack, t))
    decreases |stack|
  {
    if stack != [] {
      var n := |stack| - 1;
      OrderedAlong(stack, n);
      GraftOrdered(stack[n], t, key);
      assert n > 0 ==> ChildAt(stack[..n]) == stack[n].node;
      PlugOrdered(stack[..n], Graft(stack[n], t), stack[n].node, key);
    }
  }

  lemma {:induction false} OrderedAlong(stack: seq<Ref>, i: nat)
    requires Linked(stack) && i < |stack| && Ordered(stack[0].node)
    ensures Ordered(stack[i].node)
  {
    if i > 0 { OrderedAlong(stack, i - 1); }
  }

  lemma {:induction false} PlugRooted(stack: seq<Ref>, t: Tree)
    requires Descends(stack) && Rooted(t)
    ensures Rooted(Plug(stack, t))
    decreases |stack|
  {
    if stack != [] {
      var n := |stack| - 1;
      assert Placed(stack[n]);
      PlugRooted(stack[..n], Graft(stack[n], t));
    }
  }

  lemma {:induction false} RankWithin(a: seq<Item>, items: seq<Item>, b: seq<Item>, key: Key)
    requires AllBelow(a, key) && AllAbove(b, key) && Ascending(InodeKeys(items))
    ensures Rank(a + items + b, key) == |a| + Rank(items, key)
  {
    hide Rank, Ascending;
    RankSeparates(items, key);
    var r := Rank(items, key);
    var below, rest := a + items[..r], items[r..] + b;
    assert a + items + b == below + rest;
    RankOfSplit(below, rest, key);
  }

  lemma HasKeyWithin(a: seq<Item>, items: seq<Item>, b: seq<Item>, key: Key)
    requires AllAbove(b, key) && Rank(a + items + b, key) == |a| + Rank(items, key)
    ensures HasKey(a + items + b, key) <==> HasKey(items, key)
    ensures Find(a + items + b, key) == Find(items, key)
  {
    hide Rank;
    var r, all := Rank(items, key), a + items + b;
    if r < |items| {
      assert all[|a| + r] == items[r];
    } else if b != [] {
      assert all[|a| + r] == b[0] && b[0] in b;
      LessIsStrict(key, b[0].key);
    }
  }

  // A put or delete between smaller and larger items is one on the whole sequence.
  lemma {:induction false} UpdateWithin(a: seq<Item>, items: seq<Item>, b: seq<Item>, key: Key, item: Item)
    requires AllBelow(a, key) && AllAbove(b, key) && Ascending(InodeKeys(items))
    ensures Inserted(a + items + b, key, item) == a + Inserted(items, key, item) + b
    ensures Removed(a + items + b, key) == a + Removed(items, key) + b
    ensures Find(a + items + b, key) == Find(items, key)
  {
    hide Rank, HasKey, Ascending, AllBelow, AllAbove;
    RankWithin(a, items, b, key);
    HasKeyWithin(a, items, b, key);
    var r, all := Rank(items, key), a + items + b;
    HasKeyInside(items, key);
    assert Lower(all, key) == a + Lower(items, key);
    assert Upper(all, key) == Upper(items, key) + b;
    Between(a, Lower(items, key), [item], Upper(items, key), b);
    Between(a, Lower(items, key), [], Upper(items, key), b);
  }

  lemma Between(a: seq<Item>, lower: seq<Item>, middle: seq<Item>, upper: seq<Item>, b: seq<Item>)
    ensures (a + lower) + middle + (upper + b) == a + (lower + middle + upper) + b
    ensures middle == [] ==> (a + lower) + (upper + b) == a + (lower + upper) + b
  {
  }

  lemma HasKeyInside(items: seq<Item>, key: Key)
    ensures HasKey(items, key) ==> Rank(items, key) < |items|
  {
  }

  // Where a search ends, the key is there or nowhere.
  lemma {:induction false} LandedOn(stack: seq<Ref>, key: Key)
    requires SplitsAt(stack, key) && AtLeaf(stack) && stack[|stack| - 1].index >= 0
    ensures var items := Items(stack[0].node); var item := ItemAt(stack);
      Find(items, key) == if item.Some? && item.value.key == key then item else None
  {
    hide Rank, Items, Before, From, After, Linked, Routed;
    var items := Items(stack[0].node);
    PositionSplits(stack);
    RankOfSplit(Before(stack), From(stack), key);
    if AtItem(stack) {
      Current(stack);
      assert items[|Before(stack)|] == From(stack)[0];
    } else {
      NoCurrent(stack);
      if From(stack) != [] {
        assert items[|Before(stack)|] == From(stack)[0] && From(stack)[0] in After(stack);
        LessIsStrict(key, From(stack)[0].key);
      }
    }
  }

  // The leaf that a search ends in, between the items left and right of it.
  lemma {:induction false} LeafWithin(stack: seq<Ref>, key: Key)
    requires SplitsAt(stack, key) && AtLeaf(stack) && stack[|stack| - 1].index >= 0
    ensures var lower := stack[..|stack| - 1]; var items := stack[|stack| - 1].node.items;
      && Descends(lower) && Linked(lower) && AllBelow(Before(lower), key) && AllAbove(After(lower), key)
      && Items(stack[0].node) == Before(lower) + items + After(lower)
  {
    hide Items, RestBefore, RestFrom, RestAfter, Descends, Linked, AllBelow, AllAbove, AllFrom, Routed;
    LowerDescends(stack, key);
    var n := |stack| - 1;
    var lower, top := stack[..n], stack[n];
    PositionSplits(stack);
    PartBelow(Before(lower), RestBefore(top), key);
    PartAbove(RestAfter(top), After(lower), key);
    Regroup(Before(lower), RestBefore(top), RestFrom(top), After(lower));
    WholeLeaf(top);
  }

  lemma LowerDescends(stack: seq<Ref>, key: Key)
    requires SplitsAt(stack, key)
    ensures Descends(stack[..|stack| - 1]) && Linked(stack[..|stack| - 1]) && Placed(stack[|stack| - 1])
  {
    hide Before, From, After, AllBelow, AllFrom, AllAbove, Rooted;
    assert forall i :: 0 <= i < |stack| - 1 ==> BelongsAt(stack[i], key);
  }

  lemma PartBelow(a: seq<Item>, b: seq<Item>, key: Key)
    requires AllBelow(a + b, key)
    ensures AllBelow(a, key)
  {
    assert forall item :: item in a ==> item in a + b;
  }

  lemma PartAbove(a: seq<Item>, b: seq<Item>, key: Key)
    requires AllAbove(a + b, key)
    ensures AllAbove(b, key)
  {
    assert forall item :: item in b ==> item in a + b;
  }

  lemma WholeLeaf(r: Ref)
    requires r.node.Leaf? && 0 <= r.index <= r.node.Count()
    ensures RestBefore(r) + RestFrom(r) == r.node.items
  {
  }

  // The items of the tree with another leaf there.
  lemma {:induction false} LeafItems(stack: seq<Ref>, key: Key, item: Item)
    requires SplitsAt(stack, key) && AtLeaf(stack) && stack[|stack| - 1].index >= 0
    requires Ascending(InodeKeys(stack[|stack| - 1].node.items))
    ensures Descends(stack[..|stack| - 1])
    ensures var lower := stack[..|stack| - 1];
      var was, now := stack[|stack| - 1].node.items, Items(stack[0].node);
      && Items(Plug(lower, Leaf(Inserted(was, key, item)))) == Inserted(now, key, item)
      && Items(Plug(lower, Leaf(Removed(was, key)))) == Removed(now, key)
      && Find(now, key) == Find(was, key)
  {
    hide SplitsAt, Descends, Inserted, Removed, Find, Before, After, Plug, Ascending;
    LeafWithin(stack, key);
    var lower, was := stack[..|stack| - 1], stack[|stack| - 1].node.items;
    UpdateWithin(Before(lower), was, After(lower), key, item);
    PlugItems(lower, Leaf(Inserted(was, key, item)));
    PlugItems(lower, Leaf(Removed(was, key)));
  }

  // The order of the tree with another leaf there.
  lemma {:induction false} LeafKeepsOrder(stack: seq<Ref>, key: Key, items: seq<Item>)
    requires SplitsAt(stack, key) && AtLeaf(stack) && stack[|stack| - 1].index >= 0
    requires Ordered(stack[0].node) && Ascending(InodeKeys(items))
    requires forall item :: item in items ==> item in stack[|stack| - 1].node.items || item.key == key
    ensures Descends(stack[..|stack| - 1])
    ensures Ordered(Plug(stack[..|stack| - 1], Leaf(items))) && Rooted(Plug(stack[..|stack| - 1], Leaf(items)))
  {
    hide Ascending, Plug;
    LeafWithin(stack, key);
    var n := |stack| - 1;
    OrderedAlong(stack, n);
    assert forall i :: 0 <= i < n ==> BelongsAt(stack[i], key);
    assert n > 0 ==> ChildAt(stack[..n]) == stack[n].node;
    PlugOrdered(stack[..n], Leaf(items), stack[n].node, key);
    PlugRooted(stack[..n], Leaf(items));
  }

  class Bucket {
    var root: Tree

    ghost predicate Valid()
      reads this
    {
      Rooted(root) && Ordered(root)
    }

    constructor ()
      ensures Valid() && Items(root) == []
    {
      root := Leaf([]);
    }

    // Get: the value under the key, unless a nested bucket is.
    method Get(key: Key) returns (value: Option<seq<Byte>>)
      requires Valid()
      ensures value == match Find(Items(root), key)
        case None => None
        case Some(item) => if IsBucket(item) then None else Some(item.value)
      ensures forall item :: item in Items(root) && item.key == key ==> value == if item.flags % 2 == 1 then None else Some(item.value)
      ensures (forall item :: item in Items(root) ==> item.key != key) ==> value == None
    {
      hide Rooted, Ordered, Items, Rank, Linked;
      OrderedAscends(root);
      FoundIsMember(Items(root), key);
      var c := new Cursor(root);
      var item := c.SeekLeaf(key);
      LandedOn(c.stack, key);
      if item.Some? && IsBucket(item.value) { return None; }
      if item.None? || item.value.key != key { return None; }
      return Some(item.value.value);
    }

    // Put: an update of the items, in order, or an error that changes nothing.
    method Put(key: Key, value: seq<Byte>) returns (outcome: Outcome)
      requires Valid()
      modifies this
      ensures Valid()
      ensures outcome == PutOutcome(old(Find(Items(root), key)), key, value)
      ensures outcome == Done <==>
        (1 <= |key| <= 32768 && |value| <= 2147483646
        && forall item :: item in old(Items(root)) && item.key == key ==> item.flags % 2 == 0)
      ensures key == [] ==> outcome == ErrKeyRequired
      ensures |key| > 32768 ==> outcome == ErrKeyTooLarge
      ensures 1 <= |key| <= 32768 && |value| > 2147483646 ==> outcome == ErrValueTooLarge
      ensures 1 <= |key| <= 32768 && |value| <= 2147483646 && outcome != Done ==> outcome == ErrIncompatibleValue
      ensures outcome != Done ==> root == old(root)
      ensures outcome == Done ==> Items(root) == Inserted(old(Items(root)), key, Inode(0, 0, key, value))
      ensures outcome == Done ==> forall item ::
        (item in Items(root) <==> item == Inode(0, 0, key, value) || (item in old(Items(root)) && item.key != key))
    {
      hide Rooted, Ordered, Items, Rank, Linked, Find, Inserted, SplitsAt, Plug, Descends;
      OrderedAscends(root);
      PutIsDone(Items(root), key, value);
      PutIsUpdate(Items(root), Inode(0, 0, key, value));
      if key == [] { return ErrKeyRequired; }
      if |key| > MAX_KEY_SIZE { return ErrKeyTooLarge; }
      if |value| > MAX_VALUE_SIZE { return ErrValueTooLarge; }
      var c := new Cursor(root);
      var item := c.SeekLeaf(key);
      LandedOn(c.stack, key);
      if item.Some? && item.value.key == key && IsBucket(item.value) { return ErrIncompatibleValue; }
      var n := |c.stack| - 1;
      var node := new Node(true, c.stack[n].node.items);
      LeafAscends(c.stack);
      node.Put(key, key, value, 0, 0);
      PutIsUpdate(c.stack[n].node.items, Inode(0, 0, key, value));
      LeafItems(c.stack, key, Inode(0, 0, key, value));
      LeafKeepsOrder(c.stack, key, node.inodes);
      root := Plug(c.stack[..n], Leaf(node.inodes));
      return Done;
    }

    // Delete: a removal of the item, or nothing when there is none, or an error that changes nothing.
    method Delete(key: Key) returns (outcome: Outcome)
      requires Valid()
      modifies this
      ensures Valid()
      ensures outcome == DeleteOutcome(old(Find(Items(root), key)))
      ensures outcome == Done <==> forall item :: item in old(Items(root)) && item.key == key ==> item.flags % 2 == 0
      ensures outcome != Done ==> root == old(root)
      ensures outcome == Done ==> Items(root) == Removed(old(Items(root)), key)
      ensures outcome == Done ==> forall item :: item in Items(root) <==> item in old(Items(root)) && item.key != key
    {
      hide Rooted, Ordered, Items, Rank, Linked, Find, Removed, SplitsAt, Plug, Descends;
      OrderedAscends(root);
      PutIsDone(Items(root), key, []);
      DelIsRemoval(Items(root), key);
      var c := new Cursor(root);
      var item := c.SeekLeaf(key);
      LandedOn(c.stack, key);
      if item.None? || item.value.key != key {
        NothingRemoved(Items(root), key);
        return Done;
      }
      if IsBucket(item.value) { return ErrIncompatibleValue; }
      var n := |c.stack| - 1;
      var node := new Node(true, c.stack[n].node.items);
      LeafAscends(c.stack);
      node.Del(key);
      DelIsRemoval(c.stack[n].node.items, key);
      LeafItems(c.stack, key, item.value);
      LeafKeepsOrder(c.stack, key, node.inodes);
      root := Plug(c.stack[..n], Leaf(node.inodes));
      return Done;
    }
  }

  // What is put is read, can be put again, and changes nothing under any other key.
  method ReadAfterPut(b: Bucket, key: Key, value: seq<Byte>, other: Key)
      returns (before: Option<seq<Byte>>, put: Outcome, got: Option<seq<Byte>>, after: Option<seq<Byte>>, again: Outcome)
    requires b.Valid() && 1 <= |key| <= 32768 && |value| <= 2147483646 && other != key
    requires forall item :: item in Items(b.root) && item.key == key ==> item.flags % 2 == 0
    modifies b
    ensures b.Valid() && put == Done && got == Some(value) && after == before && again == Done
  {
    hide Rooted, Ordered, Items, Find, Inserted;
    before := b.Get(other);
    put := b.Put(key, value);
    got := b.Get(key);
    after := b.Get(other);
    again := b.Put(key, value);
  }

  // What is deleted is not there any more.
  method ReadAfterDelete(b: Bucket, key: Key, other: Key)
      returns (before: Option<seq<Byte>>, deleted: Outcome, got: Option<seq<Byte>>, after: Option<seq<Byte>>)
    requires b.Valid() && other != key
    requires forall item :: item in Items(b.root) && item.key == key ==> item.flags % 2 == 0
    modifies b
    ensures b.Valid() && deleted == Done && got == None && after == before
  {
    hide Rooted, Ordered, Items, Find, Removed;
    before := b.Get(other);
    deleted := b.Delete(key);
    got := b.Get(key);
    after := b.Get(other);
  }

  // A nested bucket is neither read, nor overwritten, nor deleted as an item.
  method NestedStays(b: Bucket, nested: Item, value: seq<Byte>)
      returns (got: Option<seq<Byte>>, put: Outcome, deleted: Outcome)
    requires b.Valid() && nested in Items(b.root) && nested.flags == 1
    modifies b
    ensures b.root == old(b.root) && got == None && put != Done && deleted == ErrIncompatibleValue
  {
    hide Rooted, Ordered, Items, Find, Inserted, Removed;
    got := b.Get(nested.key);
    put := b.Put(nested.key, value);
    deleted := b.Delete(nested.key);
  }

  lemma LeafAscends(stack: seq<Ref>)
    requires Linked(stack) && AtLeaf(stack) && Ordered(stack[0].node)
    ensures Ascending(InodeKeys(stack[|stack| - 1].node.items))
  {
    OrderedAlong(stack, |stack| - 1);
  }

  lemma NothingRemoved(items: seq<Item>, key: Key)
    requires Find(items, key).None?
    ensures Removed(items, key) == items
  {
  }
}
