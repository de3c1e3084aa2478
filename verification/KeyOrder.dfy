// The key order checker of environment/bbolt/tx_check.go: a recursion over the pages that reports
// each key outside its range, and what its silence proves.
module KeyOrder {
  import opened Inodes
  import opened Keys
  import opened Options
  import opened Trees

  datatype Violation =
    | BelowAncestor(index: nat)
    | BelowPrevious(index: nat)
    | EqualToPrevious(index: nat)
    | NotBelowNext(index: nat)

  // verifyKeyOrder: a missing previous key compares like the empty key.
  method VerifyKeyOrder(index: nat, key: Key, previous: Option<Key>, maxKeyOpen: Option<Key>)
    returns (found: seq<Violation>)
    ensures found == [] <==> Fits(index, key, previous, maxKeyOpen)
    ensures BelowAncestor(index) in found <==> index == 0 && previous.Some? && Less(key, previous.value)
    ensures BelowPrevious(index) in found <==> index > 0 && previous.Some? && Less(key, previous.value)
    ensures EqualToPrevious(index) in found <==> index > 0 && key == if previous.Some? then previous.value else []
    ensures NotBelowNext(index) in found <==> maxKeyOpen.Some? && !Less(key, maxKeyOpen.value)
    ensures forall v :: v in found ==> v.index == index
  {
    found := [];
    var prev := if previous.Some? then previous.value else [];
    Chain(prev, key, key);
    if maxKeyOpen.Some? { Chain(key, maxKeyOpen.value, key); }
    if index == 0 && previous.Some? && Compare(prev, key) > 0 { found := found + [BelowAncestor(index)]; }
    if index > 0 {
      var cmpRet := Compare(prev, key);
      if cmpRet > 0 { found := found + [BelowPrevious(index)]; }
      if cmpRet == 0 { found := found + [EqualToPrevious(index)]; }
    }
    if maxKeyOpen.Some? && Compare(key, maxKeyOpen.value) >= 0 { found := found + [NotBelowNext(index)]; }
  }

  ghost predicate Fits(index: nat, key: Key, previous: Option<Key>, maxKeyOpen: Option<Key>) {
    && (index == 0 ==> AtLeast(key, previous))
    && (index > 0 ==> Less(if previous.Some? then previous.value else [], key))
    && Beneath(key, maxKeyOpen)
  }

  // The key that the recursion hands back.
  ghost function MaxKey(t: Tree): Option<Key> {
    match t
    case Leaf(items) => if items == [] then None else Some(items[|items| - 1].key)
    case Branch(elems) => if elems == [] then None else MaxKey(elems[|elems| - 1].child)
  }

  function NextBound(elems: seq<Elem>, i: nat, maxKeyOpen: Option<Key>): Option<Key> {
    if i + 1 < |elems| then Some(elems[i + 1].key) else maxKeyOpen
  }

  // What the comparisons of the recursion look at.
  ghost predicate Passes(t: Tree, min: Option<Key>, max: Option<Key>)
    decreases t, 1
  {
    match t
    case Leaf(items) => forall i :: 0 <= i < |items| ==> ItemPasses(items, i, min, max)
    case Branch(elems) => forall i :: 0 <= i < |elems| ==> ElemPasses(elems, i, min, max)
  }

  ghost predicate ItemPasses(items: seq<Item>, i: nat, min: Option<Key>, max: Option<Key>)
    requires i < |items|
  {
    Fits(i, items[i].key, if i == 0 then min else Some(items[i - 1].key), max)
  }

  ghost predicate ElemPasses(elems: seq<Elem>, i: nat, min: Option<Key>, max: Option<Key>)
    requires i < |elems|
    decreases elems, 0
  {
    && Fits(i, elems[i].key, if i == 0 then min else MaxKey(elems[i - 1].child), max)
    && Passes(elems[i].child, Some(elems[i].key), NextBound(elems, i, max))
  }

  // recursivelyCheckPageKeyOrderInternal.
  method CheckKeyOrder(t: Tree, minKeyClosed: Option<Key>, maxKeyOpen: Option<Key>)
    returns (maxKeyInSubtree: Option<Key>, found: seq<Violation>)
    ensures maxKeyInSubtree == MaxKey(t)
    ensures found == [] <==> Passes(t, minKeyClosed, maxKeyOpen)
    decreases t
  {
    hide Fits;
    found, maxKeyInSubtree := [], None;
    var runningMin := minKeyClosed;
    ghost var first := 0;
    match t {
      case Branch(elems) =>
        for i := 0 to |elems|
          invariant maxKeyInSubtree == if i == 0 then None else MaxKey(elems[i - 1].child)
          invariant runningMin == if i == 0 then minKeyClosed else maxKeyInSubtree
          invariant found == [] ==> forall j :: 0 <= j < i ==> ElemPasses(elems, j, minKeyClosed, maxKeyOpen)
          invariant found != [] ==> 0 <= first < i && !ElemPasses(elems, first, minKeyClosed, maxKeyOpen)
        {
          var bad := VerifyKeyOrder(i, elems[i].key, runningMin, maxKeyOpen);
          var below: seq<Violation>;
          maxKeyInSubtree, below := CheckKeyOrder(elems[i].child, Some(elems[i].key), NextBound(elems, i, maxKeyOpen));
          assert bad == [] && below == [] <==> ElemPasses(elems, i, minKeyClosed, maxKeyOpen);
          if found == [] { first := i; }
          found := found + bad + below;
          runningMin := maxKeyInSubtree;
        }
      case Leaf(items) =>
        for i := 0 to |items|
          invariant runningMin == if i == 0 then minKeyClosed else Some(items[i - 1].key)
          invariant found == [] ==> forall j :: 0 <= j < i ==> ItemPasses(items, j, minKeyClosed, maxKeyOpen)
          invariant found != [] ==> 0 <= first < i && !ItemPasses(items, first, minKeyClosed, maxKeyOpen)
        {
          var bad := VerifyKeyOrder(i, items[i].key, runningMin, maxKeyOpen);
          assert bad == [] <==> ItemPasses(items, i, minKeyClosed, maxKeyOpen);
          if found == [] { first := i; }
          found := found + bad;
          runningMin := Some(items[i].key);
        }
        if |items| > 0 { maxKeyInSubtree := Some(items[|items| - 1].key); }
    }
  }

  // What the checker is for: in every subtree the keys lie from the separator up to the next one.
  ghost predicate InRanges(t: Tree, min: Option<Key>, max: Option<Key>) {
    match t
    case Leaf(items) => forall item :: item in items ==> AtLeast(item.key, min) && Beneath(item.key, max)
    case Branch(elems) =>
      && (elems != [] ==> AtLeast(elems[0].key, min))
      && forall i :: 0 <= i < |elems| ==> InRanges(elems[i].child, Some(elems[i].key), NextBound(elems, i, max))
  }

  ghost predicate Rising(t: Tree) {
    Ascending(InodeKeys(Items(t)))
  }

  lemma ChildFilled(elems: seq<Elem>, i: nat)
    requires Filled(Branch(elems))
    ensures |elems| > 0 && (i < |elems| ==> Filled(elems[i].child))
  {
    if i < |elems| { assert elems[i] in elems; }
  }

  lemma {:induction false} MaxKeyIsLast(t: Tree)
    requires Filled(t)
    ensures Items(t) != [] && MaxKey(t) == Some(Items(t)[|Items(t)| - 1].key)
  {
    if t.Branch? {
      var n := |t.elems| - 1;
      MaxKeyIsLast(t.elems[n].child);
      ItemsOfAt(t.elems, n);
      assert t.elems[..n + 1] == t.elems;
    }
  }

  // The ends of a subtree within its range.
  lemma {:induction false} EndsInRange(t: Tree, min: Option<Key>, max: Option<Key>)
    requires Filled(t) && InRanges(t, min, max)
    ensures Items(t) != [] && AtLeast(Items(t)[0].key, min) && Beneath(Items(t)[|Items(t)| - 1].key, max)
  {
    hide Less, AtMost, Filled, ItemsOf;
    FilledHasItems(t);
    if t.Branch? {
      var elems, n := t.elems, |t.elems| - 1;
      ChildFilled(elems, 0);
      ChildFilled(elems, n);
      EndsInRange(elems[0].child, Some(elems[0].key), NextBound(elems, 0, max));
      EndsInRange(elems[n].child, Some(elems[n].key), NextBound(elems, n, max));
      EndsOfBranch(elems);
      if min.Some? { Chain(min.value, elems[0].key, Items(t)[0].key); }
    } else {
      assert t.items[0] in t.items && t.items[|t.items| - 1] in t.items;
    }
  }

  lemma EndsOfBranch(elems: seq<Elem>)
    requires elems != [] && Items(elems[0].child) != [] && Items(elems[|elems| - 1].child) != []
    ensures var all, first, last := ItemsOf(elems), Items(elems[0].child), Items(elems[|elems| - 1].child);
      all != [] && all[0] == first[0] && all[|all| - 1] == last[|last| - 1]
  {
    hide Items;
    var n := |elems| - 1;
    ItemsOfAt(elems, n);
    assert elems[..n + 1] == elems;
  }

  // And so all of it, when its items rise.
  lemma {:induction false} AllInRange(t: Tree, min: Option<Key>, max: Option<Key>)
    requires Filled(t) && InRanges(t, min, max) && Rising(t)
    ensures forall item :: item in Items(t) ==> AtLeast(item.key, min) && Beneath(item.key, max)
  {
    hide Less, AtMost, Filled, InRanges, InodeKeys;
    EndsInRange(t, min, max);
    var items := Items(t);
    var n := |items| - 1;
    forall item | item in items ensures AtLeast(item.key, min) && Beneath(item.key, max) {
      var i :| 0 <= i <= n && items[i] == item;
      InOrder(items, 0, i);
      InOrder(items, i, n);
      if min.Some? { Chain(min.value, items[0].key, item.key); }
      if max.Some? { Chain(item.key, items[n].key, max.value); }
    }
  }

  lemma InOrder(items: seq<Item>, i: nat, j: nat)
    requires Ascending(InodeKeys(items)) && i <= j < |items|
    ensures AtMost(items[i].key, items[j].key)
  {
    assert InodeKeys(items)[i] == items[i].key && InodeKeys(items)[j] == items[j].key;
  }

  // A silent checker, when every page has an element: each subtree is within its range, and the
  // keys of the whole tree rise strictly. And conversely.
  lemma {:induction false} SilenceMeansOrder(t: Tree, min: Option<Key>, max: Option<Key>)
    requires Filled(t)
    ensures Passes(t, min, max) <==> InRanges(t, min, max) && Rising(t)
    decreases t, 2
  {
    if t.Leaf? {
      LeafSilence(t.items, min, max);
    } else {
      if Passes(t, min, max) {
        SilentPrefix(t.elems, |t.elems|, min, max);
        assert t.elems[..|t.elems|] == t.elems;
      }
      if InRanges(t, min, max) && Rising(t) { OrderIsSilent(t, min, max); }
    }
  }

  lemma {:induction false} LeafSilence(items: seq<Item>, min: Option<Key>, max: Option<Key>)
    requires items != []
    ensures Passes(Leaf(items), min, max) <==> InRanges(Leaf(items), min, max) && Ascending(InodeKeys(items))
  {
    var keys := InodeKeys(items);
    if Passes(Leaf(items), min, max) {
      forall i | 0 < i < |keys| ensures Less(keys[i - 1], keys[i]) { assert ItemPasses(items, i, min, max); }
      NeighboursAscend(keys);
      assert ItemPasses(items, 0, min, max);
      forall item | item in items ensures AtLeast(item.key, min) && Beneath(item.key, max) {
        var i :| 0 <= i < |items| && items[i] == item;
        assert ItemPasses(items, i, min, max);
        InOrder(items, 0, i);
        if min.Some? { Chain(min.value, items[0].key, item.key); }
      }
    }
    if InRanges(Leaf(items), min, max) && Ascending(keys) {
      forall i | 0 <= i < |items| ensures ItemPasses(items, i, min, max) {
        assert items[i] in items;
        if i > 0 { assert Less(keys[i - 1], keys[i]); }
      }
    }
  }

  lemma {:induction false} SilentPrefix(elems: seq<Elem>, i: nat, min: Option<Key>, max: Option<Key>)
    requires Filled(Branch(elems)) && Passes(Branch(elems), min, max) && i <= |elems|
    ensures Ascending(InodeKeys(ItemsOf(elems[..i])))
    ensures forall j :: 0 <= j < i ==> InRanges(elems[j].child, Some(elems[j].key), NextBound(elems, j, max))
    ensures elems != [] && AtLeast(elems[0].key, min)
    decreases elems, 1, i
  {
    hide Items, InodeKeys, InRanges, MaxKey, Filled, Less, AtMost, ItemsOf;
    ChildFilled(elems, 0);
    BranchItems(elems);
    assert ElemPasses(elems, 0, min, max);
    if i == 0 {
      NothingRises();
    } else {
      var k := i - 1;
      SilentPrefix(elems, k, min, max);
      assert ElemPasses(elems, k, min, max);
      ChildFilled(elems, k);
      SilenceMeansOrder(elems[k].child, Some(elems[k].key), NextBound(elems, k, max));
      AllInRange(elems[k].child, Some(elems[k].key), NextBound(elems, k, max));
      ItemsOfAt(elems, k);
      if k > 0 { LastBelow(elems, k, min, max); }
      AscendingJoin(ItemsOf(elems[..k]), Items(elems[k].child), elems[k].key);
    }
  }

  lemma NothingRises()
    ensures Ascending(InodeKeys([]))
  {
  }

  lemma {:induction false} LastBelow(elems: seq<Elem>, k: nat, min: Option<Key>, max: Option<Key>)
    requires 0 < k < |elems| && Filled(Branch(elems)) && ElemPasses(elems, k, min, max)
    requires Ascending(InodeKeys(ItemsOf(elems[..k])))
    ensures AllBelow(ItemsOf(elems[..k]), elems[k].key)
  {
    hide Items, InodeKeys, Less, AtMost, Filled, Passes;
    var left := ItemsOf(elems[..k]);
    ChildFilled(elems, k - 1);
    ItemsOfAt(elems, k - 1);
    MaxKeyIsLast(elems[k - 1].child);
    forall item | item in left ensures Less(item.key, elems[k].key) {
      var m :| 0 <= m < |left| && left[m] == item;
      InOrder(left, m, |left| - 1);
      Chain(item.key, left[|left| - 1].key, elems[k].key);
    }
  }

  lemma {:induction false} OrderIsSilent(t: Tree, min: Option<Key>, max: Option<Key>)
    requires Filled(t) && t.Branch? && InRanges(t, min, max) && Rising(t)
    ensures Passes(t, min, max)
    decreases t, 1
  {
    forall i | 0 <= i < |t.elems| ensures ElemPasses(t.elems, i, min, max) { OrderIsSilentAt(t.elems, i, min, max); }
  }

  lemma {:induction false} OrderIsSilentAt(elems: seq<Elem>, i: nat, min: Option<Key>, max: Option<Key>)
    requires Filled(Branch(elems)) && InRanges(Branch(elems), min, max) && Rising(Branch(elems)) && i < |elems|
    ensures ElemPasses(elems, i, min, max)
    decreases elems, 0
  {
    hide Items, InodeKeys, Filled, Rising, MaxKey, Less, AtMost, InRanges, Passes;
    ChildFilled(elems, i);
    var e := elems[i];
    RangesParts(elems, min, max);
    EndsInRange(Branch(elems), min, max);
    ChildRises(elems, i);
    SilenceMeansOrder(e.child, Some(e.key), NextBound(elems, i, max));
    EndsInRange(e.child, Some(e.key), NextBound(elems, i, max));
    var first, last := Items(e.child)[0].key, Items(Branch(elems))[|Items(Branch(elems))| - 1].key;
    if max.Some? {
      Chain(e.key, first, last);
      Chain(e.key, last, max.value);
    }
    if i > 0 {
      ChildRises(elems, i - 1);
      EndsInRange(elems[i - 1].child, Some(elems[i - 1].key), Some(e.key));
      MaxKeyIsLast(elems[i - 1].child);
    }
  }

  lemma RangesParts(elems: seq<Elem>, min: Option<Key>, max: Option<Key>)
    requires InRanges(Branch(elems), min, max)
    ensures elems != [] ==> AtLeast(elems[0].key, min)
    ensures forall i :: 0 <= i < |elems| ==> InRanges(elems[i].child, Some(elems[i].key), NextBound(elems, i, max))
  {
  }

  lemma BranchItems(elems: seq<Elem>)
    ensures Items(Branch(elems)) == ItemsOf(elems) && elems[..|elems|] == elems
    ensures ItemsOf(elems[..0]) == []
  {
    assert elems[..0] == [];
  }

  lemma {:induction false} ChildRises(elems: seq<Elem>, i: nat)
    requires Filled(Branch(elems)) && Rising(Branch(elems)) && i < |elems|
    ensures Filled(elems[i].child) && Rising(elems[i].child)
    ensures Items(elems[i].child) != [] && Items(Branch(elems)) != []
    ensures AtMost(Items(elems[i].child)[0].key, Items(Branch(elems))[|Items(Branch(elems))| - 1].key)
  {
    hide InodeKeys, Filled, Items, ItemsOf, Less, AtMost;
    ChildFilled(elems, i);
    BranchItems(elems);
    var all := ItemsOf(elems);
    FilledHasItems(elems[i].child);
    ItemsOfSplit(elems, i);
    ItemsOfAt(elems, i);
    var items, at := Items(elems[i].child), |ItemsOf(elems[..i])|;
    assert all[at..at + |items|] == items;
    Slices(all, at, at + |items|);
    InOrder(all, at, |all| - 1);
  }

  // A silent check is all that a search needs.
  lemma {:induction false} SilentIsOrdered(t: Tree, min: Option<Key>, max: Option<Key>)
    requires Filled(t) && Passes(t, min, max)
    ensures Ordered(t)
    decreases t, 1
  {
    hide Items, InRanges, Rising, Fits;
    if t.Branch? {
      forall i | 0 <= i < |t.elems| ensures ElemIsOrdered(t.elems, i) { ElemSilentIsOrdered(t.elems, i, min, max); }
      ElemsOrdered(t.elems);
    } else {
      SilenceMeansOrder(t, min, max);
      LeafRising(t);
    }
  }

  lemma LeafRising(t: Tree)
    requires t.Leaf? && Rising(t)
    ensures Ascending(InodeKeys(t.items))
  {
  }

  lemma {:induction false} ElemSilentIsOrdered(elems: seq<Elem>, i: nat, min: Option<Key>, max: Option<Key>)
    requires i < |elems| && Filled(Branch(elems)) && Passes(Branch(elems), min, max)
    ensures ElemIsOrdered(elems, i)
    decreases elems, 0
  {
    hide Items, InRanges, Rising, Fits;
    var e := elems[i];
    assert ElemPasses(elems, i, min, max) && e in elems;
    SilentIsOrdered(e.child, Some(e.key), NextBound(elems, i, max));
    SilenceMeansOrder(e.child, Some(e.key), NextBound(elems, i, max));
    AllInRange(e.child, Some(e.key), NextBound(elems, i, max));
    FilledHasItems(e.child);
  }

  lemma {:induction false} ElemsOrdered(elems: seq<Elem>)
    requires forall i :: 0 <= i < |elems| ==> ElemIsOrdered(elems, i)
    ensures Ordered(Branch(elems))
  {
    hide Items;
    var keys := ElemKeys(elems);
    forall i | 0 <= i < |elems|
      ensures Ordered(elems[i].child) && AllFrom(Items(elems[i].child), elems[i].key)
      ensures i + 1 < |elems| ==> AllBelow(Items(elems[i].child), elems[i + 1].key)
    {
      assert ElemIsOrdered(elems, i);
    }
    forall i | 0 < i < |keys| ensures Less(keys[i - 1], keys[i]) {
      assert ElemIsOrdered(elems, i - 1);
      var item := Items(elems[i - 1].child)[0];
      Chain(keys[i - 1], item.key, keys[i]);
    }
    NeighboursAscend(keys);
  }

  ghost predicate ElemIsOrdered(elems: seq<Elem>, i: nat)
    requires i < |elems|
  {
    var e := elems[i];
    && Ordered(e.child) && Items(e.child) != [] && AllFrom(Items(e.child), e.key)
    && (i + 1 < |elems| ==> AllBelow(Items(e.child), elems[i + 1].key))
  }

  // ---- Empty pages ----

  lemma {:induction false} MaxKeyIsItem(t: Tree)
    requires MaxKey(t).Some?
    ensures Items(t) != [] && MaxKey(t) == Some(Items(t)[|Items(t)| - 1].key)
  {
    if t.Branch? {
      var n := |t.elems| - 1;
      MaxKeyIsItem(t.elems[n].child);
      ItemsOfAt(t.elems, n);
      assert t.elems[..n + 1] == t.elems;
    }
  }

  // The order of the keys on each page.
  ghost predicate Sorted(t: Tree) {
    match t
    case Leaf(items) => Ascending(InodeKeys(items))
    case Branch(elems) => Ascending(ElemKeys(elems)) && forall i :: 0 <= i < |elems| ==> Sorted(elems[i].child)
  }

  // The comparison that the recursion skips: after a child that ends in an empty leaf, which hands back
  // no key, the next separator is compared with nothing.
  ghost predicate GapsFit(t: Tree) {
    t.Branch? ==>
      && (forall i :: 0 <= i < |t.elems| ==> GapsFit(t.elems[i].child))
      && forall i :: 0 <= i < |t.elems| - 1 ==> GapFits(t.elems, i)
  }

  ghost predicate GapFits(elems: seq<Elem>, i: nat)
    requires i + 1 < |elems|
  {
    MaxKey(elems[i].child).None? ==> Less(elems[i].key, elems[i + 1].key)
  }

  ghost predicate WithinRange(items: seq<Item>, min: Option<Key>, max: Option<Key>) {
    forall item :: item in items ==> AtLeast(item.key, min) && Beneath(item.key, max)
  }

  // For every tree: when the check is silent, the keys are sorted on every page if and only if the skipped
  // comparisons hold; and then all keys rise, and every subtree is in its range.
  lemma {:induction false} SilenceIsSorted(t: Tree, min: Option<Key>, max: Option<Key>)
    requires Passes(t, min, max)
    ensures GapsFit(t) <==> Sorted(t)
    ensures GapsFit(t) ==> Rising(t) && WithinRange(Items(t), min, max) && InRanges(t, min, max)
  {
    if GapsFit(t) { GapsSilence(t, min, max); }
    if Sorted(t) { SortedHasNoGaps(t); }
  }

  lemma {:induction false} SortedHasNoGaps(t: Tree)
    requires Sorted(t)
    ensures GapsFit(t)
  {
    hide Less, MaxKey;
    if t.Branch? {
      forall i | 0 <= i < |t.elems| ensures GapsFit(t.elems[i].child) { SortedHasNoGaps(t.elems[i].child); }
      forall i | 0 <= i < |t.elems| - 1 ensures GapFits(t.elems, i) {
        assert ElemKeys(t.elems)[i] == t.elems[i].key && ElemKeys(t.elems)[i + 1] == t.elems[i + 1].key;
      }
    }
  }

  lemma {:induction false} GapsSilence(t: Tree, min: Option<Key>, max: Option<Key>)
    requires GapsFit(t) && Passes(t, min, max)
    ensures Sorted(t) && Rising(t) && WithinRange(Items(t), min, max) && InRanges(t, min, max)
    decreases t, 1
  {
    hide Less, AtMost, MaxKey, Fits;
    if t.Leaf? {
      if t.items != [] { LeafSilence(t.items, min, max); }
    } else if t.elems != [] {
      var elems := t.elems;
      GapsPrefix(elems, |elems|, min, max);
      assert elems[..|elems|] == elems;
      var keys := ElemKeys(elems);
      forall i | 0 < i < |keys| ensures Less(keys[i - 1], keys[i]) { assert SeparatorFits(elems, i - 1, max); }
      NeighboursAscend(keys);
      FirstFits(elems, min, max);
    } else {
      NoneLeft(t.elems);
      assert t.elems[..0] == t.elems;
      NothingRises();
    }
  }

  lemma FirstFits(elems: seq<Elem>, min: Option<Key>, max: Option<Key>)
    requires Passes(Branch(elems), min, max) && elems != []
    ensures AtLeast(elems[0].key, min)
  {
    assert ElemPasses(elems, 0, min, max);
  }

  // A separator lies below the next one, or below the bound of the branch.
  ghost predicate SeparatorFits(elems: seq<Elem>, i: nat, max: Option<Key>)
    requires i < |elems|
  {
    Beneath(elems[i].key, NextBound(elems, i, max))
  }

  lemma {:induction false} GapsPrefix(elems: seq<Elem>, i: nat, min: Option<Key>, max: Option<Key>)
    requires GapsFit(Branch(elems)) && Passes(Branch(elems), min, max) && 0 < i <= |elems|
    ensures Ascending(InodeKeys(ItemsOf(elems[..i]))) && WithinRange(ItemsOf(elems[..i]), min, NextBound(elems, i - 1, max))
    ensures AtLeast(elems[i - 1].key, min)
    ensures forall j :: 0 <= j < i ==> Sorted(elems[j].child) && SeparatorFits(elems, j, max)
    ensures forall j :: 0 <= j < i ==> InRanges(elems[j].child, Some(elems[j].key), NextBound(elems, j, max))
    decreases elems, 0, i
  {
    hide Items, InodeKeys, MaxKey, Less, AtMost, ItemsOf, Sorted, InRanges, GapFits;
    var k := i - 1;
    var e, bound := elems[k], NextBound(elems, k, max);
    assert ElemPasses(elems, k, min, max) && e in elems;
    GapsSilence(e.child, Some(e.key), bound);
    BelowNext(elems, k, min, max);
    ItemsOfAt(elems, k);
    var left, right := ItemsOf(elems[..k]), Items(e.child);
    if k == 0 {
      NoneLeft(elems);
      assert left + right == right;
      RangeFrom(right, e.key, min, bound);
    } else {
      GapsPrefix(elems, k, min, max);
      assert SeparatorFits(elems, k - 1, max);
      if min.Some? {
        LessIsAtMost(elems[k - 1].key, e.key);
        Chain(min.value, elems[k - 1].key, e.key);
      }
      RangeFrom(right, e.key, min, bound);
      RangeBelow(left, e.key, min, bound);
      AscendingJoin(left, right, e.key);
    }
  }

  lemma NoneLeft(elems: seq<Elem>)
    ensures ItemsOf(elems[..0]) == []
  {
    assert elems[..0] == [];
  }

  lemma LessIsAtMost(a: Key, b: Key)
    ensures Less(a, b) ==> AtMost(a, b)
  {
  }

  lemma RangeFrom(items: seq<Item>, key: Key, min: Option<Key>, bound: Option<Key>)
    requires WithinRange(items, Some(key), bound) && AtLeast(key, min)
    ensures WithinRange(items, min, bound) && AllFrom(items, key)
  {
    hide Less, AtMost;
    if min.Some? { forall item | item in items ensures AtMost(min.value, item.key) { Chain(min.value, key, item.key); } }
  }

  lemma RangeBelow(items: seq<Item>, key: Key, min: Option<Key>, bound: Option<Key>)
    requires WithinRange(items, min, Some(key)) && Beneath(key, bound)
    ensures WithinRange(items, min, bound) && AllBelow(items, key)
  {
    hide Less, AtMost;
    if bound.Some? {
      LessIsAtMost(key, bound.value);
      forall item | item in items ensures Less(item.key, bound.value) { Chain(item.key, key, bound.value); }
    }
  }

  // By an item of the child between them, or by the skipped comparison.
  lemma {:induction false} BelowNext(elems: seq<Elem>, k: nat, min: Option<Key>, max: Option<Key>)
    requires GapsFit(Branch(elems)) && Passes(Branch(elems), min, max) && k < |elems|
    requires WithinRange(Items(elems[k].child), Some(elems[k].key), NextBound(elems, k, max))
    ensures SeparatorFits(elems, k, max)
  {
    hide Items, Less, AtMost, MaxKey;
    assert ElemPasses(elems, k, min, max);
    if k + 1 < |elems| {
      assert GapFits(elems, k);
      if MaxKey(elems[k].child).Some? {
        MaxKeyIsItem(elems[k].child);
        var items := Items(elems[k].child);
        var last := items[|items| - 1];
        assert last in items;
        Chain(elems[k].key, last.key, elems[k + 1].key);
      }
    }
  }

  // No child but the last of its branch ends in an empty leaf.
  ghost predicate Traced(t: Tree) {
    t.Branch? ==>
      && t.elems != []
      && (forall i :: 0 <= i < |t.elems| ==> Traced(t.elems[i].child))
      && forall i :: 0 <= i < |t.elems| - 1 ==> MaxKey(t.elems[i].child).Some?
  }

  // Then no comparison is skipped.
  lemma {:induction false} TracedSilence(t: Tree, min: Option<Key>, max: Option<Key>)
    requires Traced(t) && Passes(t, min, max)
    ensures Sorted(t) && Rising(t) && WithinRange(Items(t), min, max)
  {
    TracedHasNoGaps(t);
    GapsSilence(t, min, max);
  }

  lemma {:induction false} TracedHasNoGaps(t: Tree)
    requires Traced(t)
    ensures GapsFit(t)
  {
    hide MaxKey;
    if t.Branch? {
      forall i | 0 <= i < |t.elems| ensures GapsFit(t.elems[i].child) { TracedHasNoGaps(t.elems[i].child); }
    }
  }

  lemma OneItemPasses(item: Item, min: Option<Key>, max: Option<Key>)
    ensures Passes(Leaf([item]), min, max) <==> AtLeast(item.key, min) && Beneath(item.key, max)
  {
    assert ItemPasses([item], 0, min, max) <==> AtLeast(item.key, min) && Beneath(item.key, max);
  }

  // A tree where it does not hold: the key before the empty page is forgotten.
  lemma {:induction false} EmptyPageHidesDisorder()
    ensures exists t :: Rooted(t) && Passes(t, None, None) && !Sorted(t) && !GapsFit(t) && !Rising(t)
  {
    ThreePages([Elem([1], Leaf([Inode(0, 0, [5], [])])), Elem([9], Leaf([])), Elem([2], Leaf([Inode(0, 0, [2], [])]))]);
  }

  lemma {:induction false} ThreePages(elems: seq<Elem>)
    requires |elems| == 3 && elems[0].key == [1] && elems[1].key == [9] && elems[2].key == [2]
    requires elems[0].child.Leaf? && |elems[0].child.items| == 1 && elems[0].child.items[0].key == [5]
    requires elems[1].child == Leaf([])
    requires elems[2].child.Leaf? && |elems[2].child.items| == 1 && elems[2].child.items[0].key == [2]
    ensures var t := Branch(elems); Rooted(t) && Passes(t, None, None) && !Sorted(t) && !GapsFit(t) && !Rising(t)
  {
    var five, two := elems[0].child.items[0], elems[2].child.items[0];
    OneItemPasses(five, Some([1]), Some([9]));
    OneItemPasses(two, Some([2]), None);
    assert elems[0].child == Leaf([five]) && elems[2].child == Leaf([two]);
    assert ElemPasses(elems, 0, None, None);
    assert ElemPasses(elems, 1, None, None);
    assert ElemPasses(elems, 2, None, None);
    assert elems[1] in elems && MaxKey(elems[1].child).None?;
    assert elems[1..][1..] == elems[2..] && elems[2..][1..] == [];
    assert ItemsOf(elems[2..]) == [two];
    assert ItemsOf(elems[1..]) == [two];
    assert ItemsOf(elems) == [five, two];
    assert InodeKeys([five, two])[0] == [5] && InodeKeys([five, two])[1] == [2];
    assert !Less([5], [2]) && !Less([9], [2]);
    assert !GapFits(elems, 1);
    if Sorted(Branch(elems)) { SortedHasNoGaps(Branch(elems)); }
  }
}
