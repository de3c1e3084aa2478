// The B+tree of a bucket as its pages and nodes show it to a reader.
module Trees {
  import opened Inodes
  import opened Keys

  type Item = Inode

  datatype Elem = Elem(key: Key, child: Tree)

  // A leaf or a branch, whether it is a page or a materialized node.
  datatype Tree = Leaf(items: seq<Item>) | Branch(elems: seq<Elem>)
  {
    function Count(): nat {
      match this
      case Leaf(items) => |items|
      case Branch(elems) => |elems|
    }
  }

  // The items of a tree in the order of its leaves.
  ghost function Items(t: Tree): seq<Item>
    decreases t, 1
  {
    match t
    case Leaf(items) => items
    case Branch(elems) => ItemsOf(elems)
  }

  ghost function ItemsOf(elems: seq<Elem>): seq<Item>
    decreases elems, 0
  {
    if elems == [] then [] else Items(elems[0].child) + ItemsOf(elems[1..])
  }

  lemma {:induction false} ItemsOfSplit(elems: seq<Elem>, i: nat)
    requires i <= |elems|
    ensures ItemsOf(elems) == ItemsOf(elems[..i]) + ItemsOf(elems[i..])
    decreases i
  {
    if i == 0 {
      assert elems[..0] == [] && elems[0..] == elems;
    } else {
      ItemsOfSplit(elems[1..], i - 1);
      assert elems[1..][..i - 1] == elems[..i][1..];
      assert elems[1..][i - 1..] == elems[i..];
      assert Items(elems[0].child) + (ItemsOf(elems[..i][1..]) + ItemsOf(elems[i..]))
          == (Items(elems[0].child) + ItemsOf(elems[..i][1..])) + ItemsOf(elems[i..]);
    }
  }

  // The child at i, and what is left and right of it.
  lemma ItemsOfAt(elems: seq<Elem>, i: nat)
    requires i < |elems|
    ensures ItemsOf(elems[i..]) == Items(elems[i].child) + ItemsOf(elems[i + 1..])
    ensures ItemsOf(elems[..i + 1]) == ItemsOf(elems[..i]) + Items(elems[i].child)
  {
    assert elems[i..][1..] == elems[i + 1..];
    ItemsOfSplit(elems[..i + 1], i);
    assert elems[..i + 1][..i] == elems[..i] && elems[..i + 1][i..] == [elems[i]];
    assert ItemsOf([elems[i]]) == Items(elems[i].child) + ItemsOf([]);
  }

  // Every branch has a child.
  ghost predicate Rooted(t: Tree) {
    t.Branch? ==> t.elems != [] && forall e :: e in t.elems ==> Rooted(e.child)
  }

  // Moreover, every leaf has an item.
  ghost predicate Filled(t: Tree) {
    t.Count() > 0 && (t.Branch? ==> forall e :: e in t.elems ==> Filled(e.child))
  }

  lemma {:induction false} FilledIsRooted(t: Tree)
    requires Filled(t)
    ensures Rooted(t)
  {
    if t.Branch? {
      forall e | e in t.elems ensures Rooted(e.child) { FilledIsRooted(e.child); }
    }
  }

  lemma {:induction false} FilledHasItems(t: Tree)
    requires Filled(t)
    ensures Items(t) != []
  {
    if t.Branch? { FilledHasItems(t.elems[0].child); }
  }

  // The number of nodes.
  ghost function Size(t: Tree): nat
    decreases t, 1
  {
    1 + if t.Branch? then SizeOf(t.elems) else 0
  }

  ghost function SizeOf(elems: seq<Elem>): nat
    decreases elems, 0
  {
    if elems == [] then 0 else Size(elems[0].child) + SizeOf(elems[1..])
  }

  lemma {:induction false} SizeOfLast(elems: seq<Elem>, i: nat)
    requires i < |elems|
    ensures SizeOf(elems[..i + 1]) == SizeOf(elems[..i]) + Size(elems[i].child)
    decreases i
  {
    if i == 0 {
      assert elems[..1][1..] == [] && elems[..0] == [];
    } else {
      SizeOfLast(elems[1..], i - 1);
      assert elems[1..][..i] == elems[..i + 1][1..] && elems[1..][..i - 1] == elems[..i][1..];
    }
  }

  function ElemKeys(elems: seq<Elem>): (keys: seq<Key>)
    ensures |keys| == |elems|
  {
    seq(|elems|, i requires 0 <= i < |elems| => elems[i].key)
  }

  // What a search relies on. The first separator of a branch bounds nothing from below: a key smaller
  // than all others goes to the first child.
  ghost predicate Ordered(t: Tree) {
    match t
    case Leaf(items) => Ascending(InodeKeys(items))
    case Branch(elems) =>
      && Ascending(ElemKeys(elems))
      && forall i :: 0 <= i < |elems| ==>
        && Ordered(elems[i].child)
        && (i > 0 ==> AllFrom(Items(elems[i].child), elems[i].key))
        && (i + 1 < |elems| ==> AllBelow(Items(elems[i].child), elems[i + 1].key))
  }

  // The children before a separator that is not above the key hold smaller keys only.
  lemma {:induction false} BelowSeparator(elems: seq<Elem>, i: nat, key: Key)
    requires Ordered(Branch(elems)) && i < |elems| && (i > 0 ==> AtMost(elems[i].key, key))
    ensures AllBelow(ItemsOf(elems[..i]), key)
  {
    if i > 0 {
      SeparatorsRise(elems, i - 1, i);
      Chain(elems[i - 1].key, elems[i].key, key);
      BelowSeparator(elems, i - 1, key);
      ItemsOfAt(elems, i - 1);
      forall item | item in Items(elems[i - 1].child) ensures Less(item.key, key) {
        Chain(item.key, elems[i].key, key);
      }
    }
  }

  lemma {:induction false} SeparatorsRise(elems: seq<Elem>, i: nat, j: nat)
    requires Ascending(ElemKeys(elems)) && i < j < |elems|
    ensures Less(elems[i].key, elems[j].key)
  {
    assert ElemKeys(elems)[i] == elems[i].key && ElemKeys(elems)[j] == elems[j].key;
  }

  // The children from a separator above the key on hold larger keys only.
  lemma {:induction false} AboveSeparator(elems: seq<Elem>, i: nat, key: Key)
    requires Ordered(Branch(elems)) && 0 < i <= |elems| && (i < |elems| ==> Less(key, elems[i].key))
    ensures AllAbove(ItemsOf(elems[i..]), key)
    decreases |elems| - i
  {
    if i < |elems| {
      if i + 1 < |elems| {
        SeparatorsRise(elems, i, i + 1);
        Chain(key, elems[i].key, elems[i + 1].key);
      }
      AboveSeparator(elems, i + 1, key);
      ItemsOfAt(elems, i);
      forall item | item in Items(elems[i].child) ensures Less(key, item.key) {
        Chain(key, elems[i].key, item.key);
      }
    }
  }

  // The items of an ordered tree are in strictly ascending key order.
  lemma {:induction false} OrderedAscends(t: Tree)
    requires Ordered(t)
    ensures Ascending(InodeKeys(Items(t)))
  {
    if t.Branch? {
      OrderedPrefix(t.elems, |t.elems|);
      assert t.elems[..|t.elems|] == t.elems;
    }
  }

  lemma {:induction false} OrderedPrefix(elems: seq<Elem>, i: nat)
    requires Ordered(Branch(elems)) && i <= |elems|
    ensures Ascending(InodeKeys(ItemsOf(elems[..i])))
    decreases elems, i
  {
    if i > 0 {
      var left, right := ItemsOf(elems[..i - 1]), Items(elems[i - 1].child);
      OrderedPrefix(elems, i - 1);
      OrderedAscends(elems[i - 1].child);
      ItemsOfAt(elems, i - 1);
      BelowSeparator(elems, i - 1, elems[i - 1].key);
      if i > 1 {
        AscendingJoin(left, right, elems[i - 1].key);
      } else {
        assert elems[..0] == [];
        assert left + right == right;
      }
    }
  }
}
