// The cursor of environment/bbolt/cursor.go: a stack of references into the tree that must
// agree with the sequence of its items.
module Cursors {
  import opened Inodes
  import opened Keys
  import opened Options
  import opened Trees

  // elemRef: a page or node, and an index into it.
  datatype Ref = Ref(node: Tree, index: int)

  // What lies strictly after and strictly before the position of one reference.
  ghost function RestAfter(r: Ref): seq<Item>
    requires -1 <= r.index <= r.node.Count()
  {
    match r.node
    case Leaf(items) => if r.index < |items| then items[r.index + 1..] else []
    case Branch(elems) => if r.index < |elems| then ItemsOf(elems[r.index + 1..]) else []
  }

  ghost function RestFrom(r: Ref): seq<Item>
    requires -1 <= r.index <= r.node.Count()
  {
    match r.node
    case Leaf(items) => items[Clip(r.index)..]
    case Branch(elems) => ItemsOf(elems[Clip(r.index)..])
  }

  ghost function RestBefore(r: Ref): seq<Item>
    requires -1 <= r.index <= r.node.Count()
  {
    match r.node
    case Leaf(items) => items[..Clip(r.index)]
    case Branch(elems) => ItemsOf(elems[..Clip(r.index)])
  }

  // The index -1 is what Last gives to a leaf without items.
  function Clip(index: int): nat {
    if index < 0 then 0 else index
  }

  ghost predicate Placed(r: Ref) {
    Rooted(r.node) && (if r.node.Count() == 0 then -1 else 0) <= r.index <= r.node.Count()
  }

  // Each reference but the last points at the next one.
  ghost predicate Linked(stack: seq<Ref>) {
    && (forall i :: 0 <= i < |stack| ==> Placed(stack[i]))
    && (forall i :: 0 <= i < |stack| - 1 ==>
         && stack[i].node.Branch? && stack[i].index < stack[i].node.Count()
         && stack[i + 1].node == stack[i].node.elems[stack[i].index].child)
  }

  ghost function After(stack: seq<Ref>): seq<Item>
    requires Linked(stack)
  {
    if stack == [] then [] else
      var n := |stack| - 1;
      RestAfter(stack[n]) + After(stack[..n])
  }

  ghost function Before(stack: seq<Ref>): seq<Item>
    requires Linked(stack)
  {
    if stack == [] then [] else
      var n := |stack| - 1;
      Before(stack[..n]) + RestBefore(stack[n])
  }

  // From the position of the top reference on.
  ghost function From(stack: seq<Ref>): seq<Item>
    requires Linked(stack) && stack != []
  {
    var n := |stack| - 1;
    RestFrom(stack[n]) + After(stack[..n])
  }

  lemma {:induction false} Regroup(a: seq<Item>, b: seq<Item>, c: seq<Item>, d: seq<Item>)
    ensures (a + b) + (c + d) == a + ((b + c) + d)
    ensures (a + b) + c == a + (b + c)
  {
  }

  lemma {:induction false} WholeNode(r: Ref)
    requires Placed(r)
    ensures RestBefore(r) + RestFrom(r) == Items(r.node)
  {
    if r.node.Branch? { ItemsOfSplit(r.node.elems, Clip(r.index)); }
  }

  // From a branch position on: the child there, then what comes after.
  lemma {:induction false} FromChild(stack: seq<Ref>)
    requires Linked(stack) && stack != []
    requires var top := stack[|stack| - 1]; top.node.Branch? && top.index < top.node.Count()
    ensures var top := stack[|stack| - 1];
      && From(stack) == Items(top.node.elems[top.index].child) + After(stack)
      && Rooted(top.node.elems[top.index].child)
  {
    var n := |stack| - 1;
    var r := stack[n];
    ItemsOfAt(r.node.elems, r.index);
    Regroup(Items(r.node.elems[r.index].child), RestAfter(r), After(stack[..n]), []);
    assert r.node.elems[r.index] in r.node.elems;
  }

  // The position splits the items of the tree.
  lemma {:induction false} PositionSplits(stack: seq<Ref>)
    requires Linked(stack) && stack != []
    ensures Before(stack) + From(stack) == Items(stack[0].node)
    decreases |stack|
  {
    hide RestBefore, RestFrom, RestAfter;
    var n := |stack| - 1;
    var top := stack[n];
    var lower := stack[..n];
    WholeNode(top);
    Regroup(Before(lower), RestBefore(top), RestFrom(top), After(lower));
    if n > 0 {
      PositionSplits(lower);
      FromChild(lower);
    } else {
      assert Items(top.node) + [] == Items(top.node);
    }
  }

  // Up to the position and including it.
  ghost function RestThrough(r: Ref): seq<Item>
    requires Placed(r) && r.index < r.node.Count()
  {
    match r.node
    case Leaf(items) => items[..r.index + 1]
    case Branch(elems) => ItemsOf(elems[..r.index + 1])
  }

  ghost predicate Inside(stack: seq<Ref>) {
    Linked(stack) && stack != [] && stack[|stack| - 1].index < stack[|stack| - 1].node.Count()
  }

  ghost function Through(stack: seq<Ref>): seq<Item>
    requires Inside(stack)
  {
    var n := |stack| - 1;
    Before(stack[..n]) + RestThrough(stack[n])
  }

  ghost predicate AtLeaf(stack: seq<Ref>) {
    stack != [] && stack[|stack| - 1].node.Leaf?
  }

  ghost predicate AtItem(stack: seq<Ref>) {
    AtLeaf(stack) && 0 <= stack[|stack| - 1].index < stack[|stack| - 1].node.Count()
  }

  ghost function ItemAt(stack: seq<Ref>): Option<Item> {
    if AtItem(stack) then Some(stack[|stack| - 1].node.items[stack[|stack| - 1].index]) else None
  }

  // The nodes that the cursor has yet to enter, forwards and backwards.
  ghost function NodesAfter(stack: seq<Ref>): nat
    requires Linked(stack)
  {
    if stack == [] then 0 else
      var n := |stack| - 1;
      NodesAfter(stack[..n]) +
      if stack[n].node.Branch? && stack[n].index < stack[n].node.Count()
      then SizeOf(stack[n].node.elems[stack[n].index + 1..]) else 0
  }

  ghost function NodesBefore(stack: seq<Ref>): nat
    requires Linked(stack)
  {
    if stack == [] then 0 else
      var n := |stack| - 1;
      NodesBefore(stack[..n]) +
      if stack[n].node.Branch? then SizeOf(stack[n].node.elems[..stack[n].index]) else 0
  }

  // The child at a branch position.
  ghost function ChildAt(stack: seq<Ref>): Tree
    requires Inside(stack) && !AtLeaf(stack)
  {
    stack[|stack| - 1].node.elems[stack[|stack| - 1].index].child
  }

  lemma {:induction false} LinkedPush(stack: seq<Ref>, r: Ref)
    requires stack != [] ==> Inside(stack) && !AtLeaf(stack) && r.node == ChildAt(stack)
    requires Placed(r)
    ensures Linked(stack + [r])
  {
  }

  lemma {:induction false} PushInside(stack: seq<Ref>, r: Ref)
    requires stack != [] ==> Inside(stack) && !AtLeaf(stack) && r.node == ChildAt(stack)
    requires Rooted(r.node) && Ordered(r.node) && r.node.Branch? && 0 <= r.index < r.node.Count()
    ensures Inside(stack + [r]) && Rooted(r.node.elems[r.index].child) && Ordered(r.node.elems[r.index].child)
  {
    LinkedPush(stack, r);
    assert r.node.elems[r.index] in r.node.elems;
  }

  lemma {:induction false} LinkedTail(stack: seq<Ref>, n: nat)
    requires Linked(stack) && n < |stack|
    ensures Linked(stack[n..]) && stack[n..] == [stack[n]] + stack[n + 1..] && Linked(stack[n + 1..])
  {
  }

  lemma {:induction false} LinkedDown(stack: seq<Ref>, r: Ref)
    requires Inside(stack) && !AtLeaf(stack) && r.node == ChildAt(stack)
    requires r.index == 0 || r.index == r.node.Count() - 1
    ensures Placed(r) && Linked(stack + [r]) && (stack + [r])[..|stack|] == stack
  {
    var top := stack[|stack| - 1];
    assert top.node.elems[top.index] in top.node.elems;
    assert (stack + [r])[..|stack|] == stack;
  }

  lemma {:induction false} ThroughChild(stack: seq<Ref>)
    requires Inside(stack) && !AtLeaf(stack)
    ensures Through(stack) == Before(stack) + Items(ChildAt(stack))
  {
    var n := |stack| - 1;
    ItemsOfAt(stack[n].node.elems, stack[n].index);
    Regroup(Before(stack[..n]), RestBefore(stack[n]), Items(ChildAt(stack)), []);
  }

  lemma {:induction false} WholeAtEnds(r: Ref)
    requires Placed(r)
    ensures r.index == 0 ==> RestFrom(r) == Items(r.node)
    ensures r.index == r.node.Count() - 1 ==> RestThrough(r) == Items(r.node)
    ensures r.node.Count() == 0 ==> Items(r.node) == []
  {
    if r.node.Branch? {
      assert r.node.elems[0..] == r.node.elems && r.node.elems[..r.node.Count()] == r.node.elems;
    } else {
      assert r.node.items[0..] == r.node.items && r.node.items[..r.node.Count()] == r.node.items;
    }
  }

  // One step down to the first position keeps what is from here on.
  lemma {:induction false} StepDownFirst(stack: seq<Ref>, r: Ref)
    requires Inside(stack) && !AtLeaf(stack) && r == Ref(ChildAt(stack), 0)
    ensures Linked(stack + [r]) && From(stack + [r]) == From(stack)
  {
    hide RestFrom, RestAfter, Items;
    LinkedDown(stack, r);
    FromChild(stack);
    WholeAtEnds(r);
  }

  // One step down to the last position keeps what is up to here.
  lemma {:induction false} StepDownLast(stack: seq<Ref>, r: Ref)
    requires Inside(stack) && !AtLeaf(stack) && r == Ref(ChildAt(stack), ChildAt(stack).Count() - 1)
    ensures Linked(stack + [r])
    ensures Inside(stack + [r]) && Through(stack + [r]) == Through(stack)
  {
    hide RestBefore, RestAfter, RestThrough, Items;
    LinkedDown(stack, r);
    ThroughChild(stack);
    WholeAtEnds(r);
  }

  lemma {:induction false} NothingBefore(r: Ref)
    requires Placed(r) && r.index <= 0
    ensures RestBefore(r) == []
  {
  }

  lemma {:induction false} NothingAfter(r: Ref)
    requires Placed(r) && r.index >= r.node.Count() - 1
    ensures RestAfter(r) == []
  {
  }

  // Counting also the nodes under the position itself.
  ghost function Under(stack: seq<Ref>): nat
    requires Linked(stack)
  {
    if Inside(stack) && !AtLeaf(stack) then Size(ChildAt(stack)) else 0
  }

  // One step right at the top, or else one up.
  lemma {:induction false} StepRight(stack: seq<Ref>, r: Ref)
    requires Linked(stack) && stack != []
    requires var top := stack[|stack| - 1]; top.index < top.node.Count() - 1 && r == Ref(top.node, top.index + 1)
    ensures Inside(stack[..|stack| - 1] + [r]) && From(stack[..|stack| - 1] + [r]) == After(stack)
    ensures NodesAfter(stack[..|stack| - 1] + [r]) + Under(stack[..|stack| - 1] + [r]) == NodesAfter(stack)
  {
    hide NodesAfter, Under;
    var n := |stack| - 1;
    assert (stack[..n] + [r])[..n] == stack[..n];
    NodesRight(stack, r);
  }

  lemma {:induction false} NodesRight(stack: seq<Ref>, r: Ref)
    requires Linked(stack) && stack != []
    requires var top := stack[|stack| - 1]; top.index < top.node.Count() - 1 && r == Ref(top.node, top.index + 1)
    requires Inside(stack[..|stack| - 1] + [r])
    ensures NodesAfter(stack[..|stack| - 1] + [r]) + Under(stack[..|stack| - 1] + [r]) == NodesAfter(stack)
  {
    var n := |stack| - 1;
    assert (stack[..n] + [r])[..n] == stack[..n];
    if r.node.Branch? { assert r.node.elems[r.index..][1..] == r.node.elems[r.index + 1..]; }
  }

  lemma {:induction false} StepUp(stack: seq<Ref>)
    requires Linked(stack) && stack != []
    requires stack[|stack| - 1].index >= stack[|stack| - 1].node.Count() - 1
    ensures Linked(stack[..|stack| - 1]) && After(stack) == After(stack[..|stack| - 1])
    ensures NodesAfter(stack[..|stack| - 1]) <= NodesAfter(stack)
  {
    NothingAfter(stack[|stack| - 1]);
  }

  lemma {:induction false} StepLeft(stack: seq<Ref>, r: Ref)
    requires Linked(stack) && stack != []
    requires var top := stack[|stack| - 1]; 0 < top.index && r == Ref(top.node, top.index - 1)
    ensures Inside(stack[..|stack| - 1] + [r]) && Through(stack[..|stack| - 1] + [r]) == Before(stack)
    ensures NodesBefore(stack[..|stack| - 1] + [r]) + Under(stack[..|stack| - 1] + [r]) == NodesBefore(stack)
  {
    var n := |stack| - 1;
    assert (stack[..n] + [r])[..n] == stack[..n];
    if r.node.Branch? { SizeOfLast(r.node.elems, r.index); }
  }

  lemma {:induction false} StepUpLeft(stack: seq<Ref>)
    requires Linked(stack) && stack != [] && stack[|stack| - 1].index <= 0
    ensures Linked(stack[..|stack| - 1]) && Before(stack) == Before(stack[..|stack| - 1])
    ensures NodesBefore(stack[..|stack| - 1]) <= NodesBefore(stack)
  {
    NothingBefore(stack[|stack| - 1]);
    assert Before(stack[..|stack| - 1]) + [] == Before(stack[..|stack| - 1]);
  }

  // ---- Leaves without items, going backwards ----

  // The items of a tree, and None in the place of each leaf that has no items.
  ghost function Marks(t: Tree): seq<Option<Item>>
    decreases t, 1
  {
    match t
    case Leaf(items) => if items == [] then [None] else Marked(items)
    case Branch(elems) => MarksOf(elems)
  }

  ghost function MarksOf(elems: seq<Elem>): seq<Option<Item>>
    decreases elems, 0
  {
    if elems == [] then [] else MarksOf(elems[..|elems| - 1]) + Marks(elems[|elems| - 1].child)
  }

  ghost function Marked(items: seq<Item>): seq<Option<Item>> {
    seq(|items|, i requires 0 <= i < |items| => Some(items[i]))
  }

  // Before the position of one reference, up to it, and for a whole stack.
  ghost function MarksLeft(r: Ref): seq<Option<Item>>
    requires Placed(r)
  {
    match r.node
    case Leaf(items) => Marked(items[..Clip(r.index)])
    case Branch(elems) => MarksOf(elems[..Clip(r.index)])
  }

  ghost function MarksTo(r: Ref): seq<Option<Item>>
    requires Placed(r) && r.index < r.node.Count()
  {
    match r.node
    case Leaf(items) => if items == [] then [None] else Marked(items[..r.index + 1])
    case Branch(elems) => MarksOf(elems[..r.index + 1])
  }

  ghost function MarksBefore(stack: seq<Ref>): seq<Option<Item>>
    requires Linked(stack)
  {
    if stack == [] then [] else
      var n := |stack| - 1;
      MarksBefore(stack[..n]) + MarksLeft(stack[n])
  }

  ghost function MarksThrough(stack: seq<Ref>): seq<Option<Item>>
    requires Inside(stack)
  {
    var n := |stack| - 1;
    MarksBefore(stack[..n]) + MarksTo(stack[n])
  }

  lemma {:induction false} MarksOfAt(elems: seq<Elem>, i: nat)
    requires i < |elems|
    ensures MarksOf(elems[..i + 1]) == MarksOf(elems[..i]) + Marks(elems[i].child)
  {
    assert elems[..i + 1][..i] == elems[..i];
  }

  lemma {:induction false} MarksAtEnd(r: Ref)
    requires Placed(r) && r.index == r.node.Count() - 1
    ensures MarksTo(r) == Marks(r.node)
  {
    if r.node.Branch? {
      assert r.node.elems[..r.index + 1] == r.node.elems;
    } else {
      assert r.node.items[..r.index + 1] == r.node.items;
    }
  }

  lemma {:induction false} MarksStepDown(stack: seq<Ref>, r: Ref)
    requires Inside(stack) && !AtLeaf(stack) && r == Ref(ChildAt(stack), ChildAt(stack).Count() - 1)
    ensures Inside(stack + [r]) && MarksThrough(stack + [r]) == MarksThrough(stack)
  {
    hide MarksTo, Marks, MarksOf;
    LinkedDown(stack, r);
    MarksAtEnd(r);
    MarksOfChild(stack);
  }

  lemma {:induction false} MarksOfChild(stack: seq<Ref>)
    requires Inside(stack) && !AtLeaf(stack)
    ensures MarksThrough(stack) == MarksBefore(stack) + Marks(ChildAt(stack))
  {
    var n := |stack| - 1;
    MarksOfAt(stack[n].node.elems, stack[n].index);
    assert MarksBefore(stack[..n]) + (MarksLeft(stack[n]) + Marks(ChildAt(stack)))
      == (MarksBefore(stack[..n]) + MarksLeft(stack[n])) + Marks(ChildAt(stack));
  }

  lemma {:induction false} MarksStepLeft(stack: seq<Ref>, r: Ref)
    requires Linked(stack) && stack != []
    requires var top := stack[|stack| - 1]; 0 < top.index && r == Ref(top.node, top.index - 1)
    ensures Inside(stack[..|stack| - 1] + [r]) && MarksThrough(stack[..|stack| - 1] + [r]) == MarksBefore(stack)
  {
    var n := |stack| - 1;
    assert (stack[..n] + [r])[..n] == stack[..n];
  }

  lemma {:induction false} MarksStepUp(stack: seq<Ref>)
    requires Linked(stack) && stack != [] && stack[|stack| - 1].index <= 0
    ensures Linked(stack[..|stack| - 1]) && MarksBefore(stack) == MarksBefore(stack[..|stack| - 1])
  {
    assert MarksLeft(stack[|stack| - 1]) == [];
  }

  // The last mark up to a position in a leaf is the item there, or None in an empty leaf.
  lemma {:induction false} MarkAt(stack: seq<Ref>)
    requires Inside(stack) && AtLeaf(stack)
    ensures MarksThrough(stack) == MarksBefore(stack) + [ItemAt(stack)]
  {
    var n := |stack| - 1;
    var top := stack[n];
    assert MarksTo(top) == MarksLeft(top) + [ItemAt(stack)];
  }

  lemma NoMarks()
    ensures MarksBefore([]) == []
  {
  }

  lemma {:induction false} MarksOfRoot(stack: seq<Ref>)
    requires |stack| == 1 && Rooted(stack[0].node) && stack[0].index == stack[0].node.Count() - 1
    ensures Inside(stack) && MarksThrough(stack) == Marks(stack[0].node)
  {
    hide MarksTo, Marks;
    MarksAtEnd(stack[0]);
    assert stack[..0] == [];
    NoMarks();
    assert [] + Marks(stack[0].node) == Marks(stack[0].node);
  }

  // Without the empty leaves at the end; and the items after the last empty leaf.
  ghost function Trimmed(marks: seq<Option<Item>>): seq<Option<Item>> {
    if marks == [] || marks[|marks| - 1].Some? then marks else Trimmed(marks[..|marks| - 1])
  }

  ghost function Stretch(marks: seq<Option<Item>>): seq<Item> {
    if marks == [] || marks[|marks| - 1].None? then [] else Stretch(marks[..|marks| - 1]) + [marks[|marks| - 1].value]
  }

  ghost function Present(marks: seq<Option<Item>>): seq<Item> {
    if marks == [] then [] else
      Present(marks[..|marks| - 1]) + if marks[|marks| - 1].Some? then [marks[|marks| - 1].value] else []
  }

  // An empty leaf with items both before and after it.
  ghost predicate Gap(marks: seq<Option<Item>>) {
    exists i, j, k :: 0 <= i < j < k < |marks| && marks[i].Some? && marks[j].None? && marks[k].Some?
  }

  // An empty leaf with items before it.
  ghost predicate Broken(marks: seq<Option<Item>>) {
    exists i, j :: 0 <= i < j < |marks| && marks[i].Some? && marks[j].None?
  }

  lemma {:induction false} PresentConcat(a: seq<Option<Item>>, b: seq<Option<Item>>)
    ensures Present(a + b) == Present(a) + Present(b)
  {
    if b == [] {
      assert a + b == a;
    } else {
      var n := |b| - 1;
      PresentConcat(a, b[..n]);
      assert (a + b)[..|a + b| - 1] == a + b[..n] && (a + b)[|a + b| - 1] == b[n];
    }
  }

  lemma {:induction false} PresentMarked(items: seq<Item>)
    ensures Present(Marked(items)) == items
  {
    if items != [] {
      var n := |items| - 1;
      PresentMarked(items[..n]);
      assert Marked(items)[..n] == Marked(items[..n]);
    }
  }

  lemma {:induction false} PresentIsItems(t: Tree)
    ensures Present(Marks(t)) == Items(t)
    decreases t, 1
  {
    match t
    case Leaf(items) =>
      PresentMarked(items);
      assert Present([None]) == Present([]);
    case Branch(elems) =>
      PresentOfElems(elems, |elems|);
      assert elems[..|elems|] == elems;
  }

  lemma {:induction false} PresentOfElems(elems: seq<Elem>, i: nat)
    requires i <= |elems|
    ensures Present(MarksOf(elems[..i])) == ItemsOf(elems[..i])
    decreases elems, 0, i
  {
    hide Items, Marks, Present;
    if i == 0 {
      assert elems[..0] == [];
      NothingPresent();
    } else {
      PresentOfElems(elems, i - 1);
      PresentIsItems(elems[i - 1].child);
      ItemsOfAt(elems, i - 1);
      MarksOfAt(elems, i - 1);
      PresentConcat(MarksOf(elems[..i - 1]), Marks(elems[i - 1].child));
    }
  }

  lemma NothingPresent()
    ensures Present([]) == []
  {
  }

  // All items lie in the last stretch exactly when no empty leaf has items on both sides.
  lemma {:induction false} StretchIsAll(marks: seq<Option<Item>>)
    ensures Stretch(Trimmed(marks)) == Present(marks) <==> !Gap(marks)
  {
    if marks != [] {
      var n := |marks| - 1;
      var rest := marks[..n];
      if marks[n].None? {
        StretchIsAll(rest);
        GapStays(marks);
      } else {
        StretchUnbroken(rest);
        GapIsBroken(marks);
        var v := [marks[n].value];
        assert Stretch(rest) == Present(rest) <==> Stretch(rest) + v == Present(rest) + v by { SameLast(Stretch(rest), Present(rest), v); }
      }
    }
  }

  lemma SameLast(a: seq<Item>, b: seq<Item>, v: seq<Item>)
    requires |v| == 1
    ensures a == b <==> a + v == b + v
  {
    if a + v == b + v {
      assert a == (a + v)[..|a|] && b == (b + v)[..|b|] && |a| == |b|;
    }
  }

  lemma GapStays(marks: seq<Option<Item>>)
    requires marks != [] && marks[|marks| - 1].None?
    ensures Gap(marks) <==> Gap(marks[..|marks| - 1])
  {
    var rest := marks[..|marks| - 1];
    if Gap(marks) {
      var i, j, k :| 0 <= i < j < k < |marks| && marks[i].Some? && marks[j].None? && marks[k].Some?;
      assert rest[i].Some? && rest[j].None? && rest[k].Some?;
    }
    if Gap(rest) {
      var i, j, k :| 0 <= i < j < k < |rest| && rest[i].Some? && rest[j].None? && rest[k].Some?;
      assert marks[i].Some? && marks[j].None? && marks[k].Some?;
    }
  }

  lemma GapIsBroken(marks: seq<Option<Item>>)
    requires marks != [] && marks[|marks| - 1].Some?
    ensures Gap(marks) <==> Broken(marks[..|marks| - 1])
  {
    var n := |marks| - 1;
    var rest := marks[..n];
    if Gap(marks) {
      var i, j, k :| 0 <= i < j < k < |marks| && marks[i].Some? && marks[j].None? && marks[k].Some?;
      assert rest[i].Some? && rest[j].None?;
    }
    if Broken(rest) {
      var i, j :| 0 <= i < j < |rest| && rest[i].Some? && rest[j].None?;
      assert marks[i].Some? && marks[j].None? && marks[n].Some?;
    }
  }

  lemma {:induction false} StretchUnbroken(marks: seq<Option<Item>>)
    ensures Stretch(marks) == Present(marks) <==> !Broken(marks)
  {
    if marks != [] {
      var n := |marks| - 1;
      var rest := marks[..n];
      assert forall i :: 0 <= i < n ==> rest[i] == marks[i];
      if marks[n].None? {
        PresentNone(rest);
        assert Present(marks) == Present(rest) + [] == Present(rest);
        if i :| 0 <= i < n && rest[i].Some? { assert marks[i].Some? && marks[n].None?; }
      } else {
        StretchUnbroken(rest);
        SameLast(Stretch(rest), Present(rest), [marks[n].value]);
        if Broken(rest) {
          var i, j :| 0 <= i < j < |rest| && rest[i].Some? && rest[j].None?;
          assert marks[i].Some? && marks[j].None?;
        }
      }
    }
  }

  lemma {:induction false} PresentNone(marks: seq<Option<Item>>)
    ensures Present(marks) == [] <==> forall i :: 0 <= i < |marks| ==> marks[i].None?
  {
    if marks != [] { PresentNone(marks[..|marks| - 1]); }
  }

  // Trees without empty pages have no gap.
  lemma {:induction false} FilledHasNoGap(t: Tree)
    requires Filled(t)
    ensures forall i :: 0 <= i < |Marks(t)| ==> Marks(t)[i].Some?
    decreases t, 1
  {
    if t.Branch? {
      FilledElems(t.elems, |t.elems|);
      assert t.elems[..|t.elems|] == t.elems;
    }
  }

  lemma {:induction false} FilledElems(elems: seq<Elem>, i: nat)
    requires i <= |elems| && forall e :: e in elems ==> Filled(e.child)
    ensures forall k :: 0 <= k < |MarksOf(elems[..i])| ==> MarksOf(elems[..i])[k].Some?
    decreases elems, 0, i
  {
    if i > 0 {
      FilledElems(elems, i - 1);
      assert elems[i - 1] in elems;
      FilledHasNoGap(elems[i - 1].child);
      MarksOfAt(elems, i - 1);
    }
  }

  // Each step down enters a node.
  lemma {:induction false} NodesDown(stack: seq<Ref>, r: Ref)
    requires Inside(stack) && !AtLeaf(stack) && r.node == ChildAt(stack) && Linked(stack + [r])
    ensures r.index == 0 ==> NodesAfter(stack + [r]) + Under(stack + [r]) < NodesAfter(stack) + Under(stack)
    ensures r.index == r.node.Count() - 1 ==>
      NodesBefore(stack + [r]) + Under(stack + [r]) < NodesBefore(stack) + Under(stack)
  {
    var down := stack + [r];
    assert down[..|stack|] == stack && down[|stack|] == r && Placed(down[|stack|]);
    if r.node.Branch? {
      assert r.index == 0 ==> Inside(down) && r.node.elems[r.index + 1..] == r.node.elems[1..];
      assert r.index == 0 ==> NodesAfter(down) + Under(down) == NodesAfter(stack) + SizeOf(r.node.elems);
      if r.index == r.node.Count() - 1 {
        SizeOfLast(r.node.elems, r.index);
        assert r.node.elems[..r.node.Count()] == r.node.elems;
      }
    }
  }

  // The item under the cursor.
  lemma {:induction false} Current(stack: seq<Ref>)
    requires Linked(stack) && AtItem(stack)
    ensures Inside(stack)
    ensures var top := stack[|stack| - 1]; var item := top.node.items[top.index];
      From(stack) == [item] + After(stack) && Through(stack) == Before(stack) + [item]
  {
    var n := |stack| - 1;
    var top := stack[n];
    assert top.node.items[top.index..] == [top.node.items[top.index]] + top.node.items[top.index + 1..];
    assert top.node.items[..top.index + 1] == top.node.items[..top.index] + [top.node.items[top.index]];
    Regroup([top.node.items[top.index]], RestAfter(top), After(stack[..n]), []);
    Regroup(Before(stack[..n]), RestBefore(top), [top.node.items[top.index]], []);
  }

  // A leaf position past the last item.
  lemma {:induction false} NoCurrent(stack: seq<Ref>)
    requires Linked(stack) && AtLeaf(stack) && !AtItem(stack)
    ensures From(stack) == After(stack)
    ensures Inside(stack) ==> Through(stack) == Before(stack) && stack[|stack| - 1].node.Count() == 0
  {
  }

  // In a tree without empty leaves every leaf position is one.
  lemma {:induction false} FilledAlong(stack: seq<Ref>, i: nat)
    requires Linked(stack) && i < |stack| && Filled(stack[0].node)
    ensures Filled(stack[i].node) && stack[i].node.Count() > 0
  {
    if i > 0 {
      FilledAlong(stack, i - 1);
      assert stack[i - 1].node.elems[stack[i - 1].index] in stack[i - 1].node.elems;
    }
  }

  // A search builds the stack from the root down; this is how its two halves grow.
  lemma {:induction false} Prepend(r: Ref, sub: seq<Ref>)
    requires Placed(r) && Linked([r] + sub) && Linked(sub) && sub != []
    ensures Before([r] + sub) == RestBefore(r) + Before(sub)
    ensures From([r] + sub) == From(sub) + RestAfter(r)
  {
    hide RestBefore, RestFrom, RestAfter;
    var n := |sub| - 1;
    assert ([r] + sub)[..n + 1] == [r] + sub[..n];
    Appending(r, sub[..n]);
    Regroup(RestBefore(r), Before(sub[..n]), RestBefore(sub[n]), []);
    Regroup(RestFrom(sub[n]), After(sub[..n]), RestAfter(r), []);
  }

  lemma {:induction false} Appending(r: Ref, sub: seq<Ref>)
    requires Placed(r) && Linked([r] + sub) && Linked(sub)
    ensures Before([r] + sub) == RestBefore(r) + Before(sub)
    ensures After([r] + sub) == After(sub) + RestAfter(r)
    decreases |sub|
  {
    hide RestBefore, RestFrom, RestAfter;
    if sub == [] {
      NothingLeft();
      assert [r] + sub == [r] && [r][..0] == [];
      assert RestAfter(r) + [] == RestAfter(r) == [] + RestAfter(r);
      assert RestBefore(r) + [] == RestBefore(r) == [] + RestBefore(r);
    } else {
      var n := |sub| - 1;
      assert ([r] + sub)[..n + 1] == [r] + sub[..n];
      Appending(r, sub[..n]);
      Regroup(RestBefore(r), Before(sub[..n]), RestBefore(sub[n]), []);
      Regroup(RestAfter(sub[n]), After(sub[..n]), RestAfter(r), []);
    }
  }

  // At every branch the key belongs to the child that the stack goes down to.
  ghost predicate Routed(stack: seq<Ref>, key: Key) {
    forall i :: 0 <= i < |stack| - 1 ==> BelongsAt(stack[i], key)
  }

  ghost predicate BelongsAt(r: Ref, key: Key) {
    && r.node.Branch? && 0 <= r.index < r.node.Count()
    && (r.index > 0 ==> AtMost(r.node.elems[r.index].key, key))
    && (r.index + 1 < r.node.Count() ==> Less(key, r.node.elems[r.index + 1].key))
  }

  // The part of a stack from a reference down splits the items below it at the key.
  ghost predicate SplitsAt(stack: seq<Ref>, key: Key) {
    && stack != [] && Linked(stack) && Routed(stack, key)
    && AllBelow(Before(stack), key) && AllFrom(From(stack), key) && AllAbove(After(stack), key)
  }

  lemma {:induction false} LeafSplits(r: Ref, key: Key)
    requires r.node.Leaf? && 0 <= r.index <= r.node.Count()
    requires forall i :: 0 <= i < r.index ==> Less(r.node.items[i].key, key)
    requires forall i :: r.index <= i < r.node.Count() ==> AtMost(key, r.node.items[i].key)
    requires forall i :: r.index < i < r.node.Count() ==> Less(key, r.node.items[i].key)
    ensures SplitsAt([r], key)
  {
    NothingLeft();
    assert [r][..0] == [];
    assert Before([r]) == r.node.items[..r.index] && From([r]) == r.node.items[r.index..];
    assert After([r]) == RestAfter(r);
  }

  lemma {:induction false} BranchSplits(r: Ref, sub: seq<Ref>, key: Key)
    requires BelongsAt(r, key) && Ordered(r.node) && Rooted(r.node)
    requires SplitsAt(sub, key) && sub[0].node == r.node.elems[r.index].child && Linked([r] + sub)
    ensures SplitsAt([r] + sub, key)
  {
    hide Before, From, After, Linked, Rooted;
    assert Placed(r);
    Prepend(r, sub);
    Appending(r, sub);
    BelowSeparator(r.node.elems, r.index, key);
    AboveSeparator(r.node.elems, r.index + 1, key);
  }

  // searchNode and searchPage: the last child whose separator is not above the key, or the first child.
  method ChildFor(elems: seq<Elem>, key: Key) returns (index: nat)
    requires Rooted(Branch(elems)) && Ordered(Branch(elems))
    ensures index < |elems| && BelongsAt(Ref(Branch(elems), index), key)
  {
    var keys := ElemKeys(elems);
    var exact: bool;
    index, exact := SearchKeys(keys, key);
    forall i | index < i < |keys| ensures Less(key, keys[i]) { Chain(key, keys[index], keys[i]); }
    if !exact && index > 0 { index := index - 1; }
    assert keys[index] == elems[index].key;
    assert index + 1 < |keys| ==> keys[index + 1] == elems[index + 1].key;
  }

  class Cursor {
    const root: Tree
    var stack: seq<Ref>

    ghost predicate Valid()
      reads this
    {
      Rooted(root) && Linked(stack) && (stack != [] ==> AtLeaf(stack) && stack[0].node == root)
    }

    constructor (tree: Tree)
      requires Rooted(tree)
      ensures Valid() && root == tree && stack == []
    {
      root := tree;
      stack := [];
    }

    // keyValue: the item under the cursor, if there is one.
    method KeyValue() returns (item: Option<Item>)
      requires AtLeaf(stack) && Linked(stack)
      ensures item == ItemAt(stack)
    {
      var ref := stack[|stack| - 1];
      if ref.node.Count() == 0 || ref.index >= ref.node.Count() { return None; }
      return Some(ref.node.items[ref.index]);
    }

    // goToFirstElementOnTheStack: down to the first leaf under the position.
    method GoToFirstElementOnTheStack()
      requires Inside(stack) || (Linked(stack) && AtLeaf(stack))
      modifies this`stack
      ensures Linked(stack) && AtLeaf(stack) && From(stack) == old(From(stack))
      ensures old(stack) <= stack && (old(AtLeaf(stack)) ==> stack == old(stack))
      ensures NodesAfter(stack) <= old(NodesAfter(stack) + Under(stack))
      ensures !old(AtLeaf(stack)) ==> NodesAfter(stack) < old(NodesAfter(stack) + Under(stack))
      ensures !old(AtLeaf(stack)) ==> stack[|stack| - 1].index == 0
    {
      hide From, After, NodesAfter, Under;
      while !stack[|stack| - 1].node.Leaf?
        invariant Linked(stack) && stack != [] && (Inside(stack) || AtLeaf(stack))
        invariant old(stack) <= stack && (old(AtLeaf(stack)) ==> stack == old(stack))
        invariant From(stack) == old(From(stack))
        invariant NodesAfter(stack) + Under(stack) <= old(NodesAfter(stack) + Under(stack))
        invariant stack != old(stack) ==>
          NodesAfter(stack) + Under(stack) < old(NodesAfter(stack) + Under(stack)) && stack[|stack| - 1].index == 0
        decreases stack[|stack| - 1].node
      {
        var top := stack[|stack| - 1];
        var ref := Ref(top.node.elems[top.index].child, 0);
        assert top.node.elems[top.index] in top.node.elems;
        StepDownFirst(stack, ref);
        NodesDown(stack, ref);
        stack := stack + [ref];
      }
    }
  
    // The inner loop of next: up to the first reference that can move right, and one step right there.
    method MoveRight() returns (moved: bool)
      requires Valid()
      modifies this`stack
      ensures !moved ==> stack == old(stack) && After(stack) == []
      ensures moved ==> Inside(stack) && From(stack) == old(After(stack))
      ensures moved ==> stack[0].node == root && stack[|stack| - 1].index >= 0
      ensures moved ==> NodesAfter(stack) + Under(stack) <= old(NodesAfter(stack))
    {
      hide From, After, NodesAfter, Under, Rooted;
      var i := |stack| - 1;
      assert stack[..|stack|] == stack;
      while i >= 0 && stack[i].index >= stack[i].node.Count() - 1
        invariant -1 <= i < |stack| && stack == old(stack)
        invariant Linked(stack[..i + 1])
        invariant After(stack[..i + 1]) == After(stack) && NodesAfter(stack[..i + 1]) <= NodesAfter(stack)
      {
        StepUp(stack[..i + 1]);
        assert stack[..i + 1][..i] == stack[..i];
        i := i - 1;
      }
      if i == -1 {
        assert stack[..0] == [];
        NothingLeft();
        return false;
      }
      ghost var upper := stack[..i + 1];
      var ref := Ref(stack[i].node, stack[i].index + 1);
      StepRight(upper, ref);
      assert upper[..i] == stack[..i];
      stack := stack[i := ref];
      assert stack[..i + 1] == upper[..i] + [ref];
      stack := stack[..i + 1];
      return true;
    }

    // next: to the item after the position, past leaves without items.
    method Next() returns (item: Option<Item>)
      requires Valid()
      modifies this`stack
      ensures Valid() && (old(stack) != [] ==> stack != [])
      ensures item.None? <==> old(After(stack)) == []
      ensures item.None? ==> After(stack) == [] && (stack == old(stack) || !AtItem(stack))
      ensures item.Some? ==> item == ItemAt(stack) && From(stack) == old(After(stack)) && item.value == From(stack)[0]
    {
      hide From, After, NodesAfter, Under, Rooted, Linked;
      while true
        invariant Valid() && (old(stack) != [] ==> stack != []) && After(stack) == old(After(stack))
        invariant stack == old(stack) || !AtItem(stack)
        decreases NodesAfter(stack)
      {
        var moved := MoveRight();
        if !moved { return None; }
        GoToFirstElementOnTheStack();
        if stack[|stack| - 1].node.Count() == 0 {
          NoCurrent(stack);
          continue;
        }
        item := KeyValue();
        Current(stack);
        return item;
      }
    }

    // First: to the first item of the tree.
    method First() returns (item: Option<Item>)
      requires Rooted(root)
      modifies this`stack
      ensures Valid()
      ensures item.None? <==> Items(root) == []
      ensures item.None? ==> stack != [] && After(stack) == []
      ensures item.Some? ==> item == ItemAt(stack) && From(stack) == Items(root) && item.value == Items(root)[0]
    {
      hide From, After, NodesAfter, Under, Rooted, Linked, Items;
      stack := [Ref(root, 0)];
      AtStart(stack);
      GoToFirstElementOnTheStack();
      if stack[|stack| - 1].node.Count() == 0 {
        NoCurrent(stack);
        var _ := Next();
      }
      if AtItem(stack) { Current(stack); }
      item := KeyValue();
    }

    // last: down to the last leaf under the position.
    method GoToLastElementOnTheStack()
      requires Inside(stack)
      modifies this`stack
      ensures Inside(stack) && AtLeaf(stack) && Through(stack) == old(Through(stack))
      ensures MarksThrough(stack) == old(MarksThrough(stack))
      ensures old(stack) <= stack && (old(AtLeaf(stack)) ==> stack == old(stack))
      ensures NodesBefore(stack) <= old(NodesBefore(stack) + Under(stack))
      ensures !old(AtLeaf(stack)) ==> NodesBefore(stack) < old(NodesBefore(stack) + Under(stack))
    {
      hide Through, MarksThrough, NodesBefore, Under;
      while !stack[|stack| - 1].node.Leaf?
        invariant Inside(stack) && Through(stack) == old(Through(stack)) && MarksThrough(stack) == old(MarksThrough(stack))
        invariant old(stack) <= stack && (old(AtLeaf(stack)) ==> stack == old(stack))
        invariant NodesBefore(stack) + Under(stack) <= old(NodesBefore(stack) + Under(stack))
        invariant stack != old(stack) ==>
          NodesBefore(stack) + Under(stack) < old(NodesBefore(stack) + Under(stack))
        decreases stack[|stack| - 1].node
      {
        var top := stack[|stack| - 1];
        var child := top.node.elems[top.index].child;
        var nextRef := Ref(child, child.Count() - 1);
        assert top.node.elems[top.index] in top.node.elems;
        StepDownLast(stack, nextRef);
        MarksStepDown(stack, nextRef);
        NodesDown(stack, nextRef);
        stack := stack + [nextRef];
      }
    }

    // The loop of prev: up to the first reference that can move left, and one step left there.
    method MoveLeft()
      requires Valid()
      modifies this`stack
      ensures Linked(stack) && (stack == [] ==> old(Before(stack)) == [] && old(MarksBefore(stack)) == [])
      ensures stack != [] ==>
        && Inside(stack) && Through(stack) == old(Before(stack)) && MarksThrough(stack) == old(MarksBefore(stack))
        && stack[0].node == root
        && NodesBefore(stack) + Under(stack) <= old(NodesBefore(stack))
        && |stack| <= |old(stack)| && (AtLeaf(stack) ==> old(stack)[|old(stack)| - 1].node.Count() > 0)
    {
      hide Before, Through, MarksBefore, MarksThrough, NodesBefore, Under, Rooted;
      var i := |stack| - 1;
      NothingLeft();
      NoMarks();
      while i >= 0
        invariant i == |stack| - 1 < |old(stack)| && stack == old(stack)[..i + 1] && Linked(stack)
        invariant MarksBefore(stack) == old(MarksBefore(stack))
        invariant Before(stack) == old(Before(stack)) && NodesBefore(stack) <= old(NodesBefore(stack))
      {
        if stack[i].index > 0 {
          var ref := Ref(stack[i].node, stack[i].index - 1);
          StepLeft(stack, ref);
          MarksStepLeft(stack, ref);
          assert stack[i := ref] == stack[..i] + [ref];
          stack := stack[i := ref];
          return;
        }
        StepUpLeft(stack);
        MarksStepUp(stack);
        assert old(stack)[..i + 1][..i] == old(stack)[..i];
        stack := stack[..i];
        i := i - 1;
      }
    }

    // prev: to the mark before the position, which is None at an empty leaf; the stack runs empty at the
    // beginning.
    method Prev() returns (item: Option<Item>)
      requires Valid()
      modifies this`stack
      ensures Valid()
      ensures item == ItemAt(stack)
      ensures stack == [] <==> old(MarksBefore(stack)) == []
      ensures stack != [] ==> old(MarksBefore(stack)) == MarksBefore(stack) + [item]
      ensures item.Some? ==> old(Before(stack)) == Before(stack) + [item.value]
      ensures stack == [] ==> old(Before(stack)) == []
      ensures item.None? && stack != [] ==> Before(stack) == old(Before(stack)) && stack[|stack| - 1].node.Count() == 0
      ensures Filled(root) ==> (item.None? <==> stack == []) && (stack == [] <==> old(Before(stack)) == [])
      ensures stack != [] && old(stack != [] && stack[|stack| - 1].node.Count() == 0)
        ==> NodesBefore(stack) < old(NodesBefore(stack))
    {
      hide Before, Through, MarksBefore, MarksThrough, NodesBefore, Under, Rooted, Linked, Filled;
      NothingLeft();
      MoveLeft();
      if stack == [] { return None; }
      GoToLastElementOnTheStack();
      item := KeyValue();
      MarkAt(stack);
      if item.Some? { Current(stack); } else { NoCurrent(stack); }
      if Filled(root) { FilledAlong(stack, |stack| - 1); }
    }

    // Last: to the last item of the tree, past leaves without items.
    method Last() returns (item: Option<Item>)
      requires Rooted(root)
      modifies this`stack
      ensures Valid()
      ensures item.None? <==> Items(root) == []
      ensures item.None? ==> stack == []
      ensures item.Some? ==> item == ItemAt(stack) && Items(root) == Before(stack) + [item.value]
      ensures Trimmed(Marks(root)) == if item.None? then [] else MarksBefore(stack) + [item]
    {
      hide Before, Through, MarksBefore, MarksThrough, Marks, NodesBefore, Under, Rooted, Linked, Items, NearLast, AtItem;
      stack := [Ref(root, root.Count() - 1)];
      AtEnd(stack);
      MarksOfRoot(stack);
      GoToLastElementOnTheStack();
      NearLastAtEnd(root, stack);
      while |stack| > 0 && stack[|stack| - 1].node.Count() == 0
        invariant Valid() && NearLast(root, stack)
        decreases if stack == [] then 0 else 1 + NodesBefore(stack)
      {
        ghost var was := stack;
        var item' := Prev();
        NearLastBefore(root, was, stack, item');
      }
      NearLastIsLast(root, stack);
      if |stack| == 0 { return None; }
      item := KeyValue();
    }

    // nsearch: the index in the leaf on top of the stack.
    method NSearch(key: Key)
      requires stack != [] && AtLeaf(stack) && Ordered(stack[|stack| - 1].node)
      modifies this`stack
      ensures |stack| == |old(stack)| && stack[..|stack| - 1] == old(stack)[..|stack| - 1]
      ensures stack[|stack| - 1].node == old(stack)[|stack| - 1].node
      ensures 0 <= stack[|stack| - 1].index <= stack[|stack| - 1].node.Count()
      ensures SplitsAt([stack[|stack| - 1]], key)
    {
      var e := stack[|stack| - 1];
      var keys := InodeKeys(e.node.items);
      var index, _ := SearchKeys(keys, key);
      forall i | 0 <= i < |keys| ensures keys[i] == e.node.items[i].key { }
      forall i | index < i < |keys| ensures Less(key, keys[i]) { Chain(key, keys[index], keys[i]); }
      LeafSplits(Ref(e.node, index), key);
      stack := stack[|stack| - 1 := Ref(e.node, index)];
    }

    // search, searchNode and searchPage: down to the leaf that the key belongs to.
    method Search(key: Key, node: Tree)
      requires Rooted(node) && Ordered(node)
      requires stack != [] ==> Inside(stack) && !AtLeaf(stack) && node == ChildAt(stack)
      modifies this`stack
      ensures Linked(stack) && AtLeaf(stack) && stack[|stack| - 1].index >= 0 && old(stack) < stack
      ensures stack[|old(stack)|].node == node && SplitsAt(stack[|old(stack)|..], key)
      decreases node
    {
      hide Linked, Inside, SplitsAt, Ordered, Rooted, BelongsAt;
      ghost var above, n := stack, |stack|;
      stack := stack + [Ref(node, 0)];
      if node.Leaf? {
        NSearch(key);
        assert stack[n].node == node && stack[n..] == [stack[n]] && stack == above + [stack[n]];
        LinkedPush(above, stack[n]);
        return;
      }
      var index := ChildFor(node.elems, key);
      var ref := Ref(node, index);
      stack := stack[|stack| - 1 := ref];
      assert stack == above + [ref];
      PushInside(above, ref);
      Search(key, node.elems[index].child);
      LinkedTail(stack, n);
      assert stack[n] == ref && stack[n + 1..][0].node == node.elems[index].child;
      BranchSplits(ref, stack[n + 1..], key);
    }

    // seek: to the leaf that the key belongs to, which may end right there.
    method SeekLeaf(key: Key) returns (item: Option<Item>)
      requires Rooted(root) && Ordered(root)
      modifies this`stack
      ensures Valid() && AtLeaf(stack) && stack[|stack| - 1].index >= 0
      ensures SplitsAt(stack, key) && item == ItemAt(stack)
    {
      hide Linked, Rooted, Ordered, Routed, AllBelow, AllFrom, AllAbove, From, After, Before;
      stack := [];
      Search(key, root);
      assert stack[0..] == stack;
      item := KeyValue();
    }

    // Seek: to the first item whose key is not below the wanted one.
    method Seek(key: Key) returns (item: Option<Item>)
      requires Rooted(root) && Ordered(root)
      modifies this`stack
      ensures Valid() && stack != []
      ensures From(stack) == Items(root)[Rank(Items(root), key)..]
      ensures item == if Rank(Items(root), key) < |Items(root)| then Some(Items(root)[Rank(Items(root), key)]) else None
    {
      hide From, After, Before, Rooted, Linked, Items, Rank, Ordered, AllBelow, AllFrom, AllAbove, Routed;
      item := SeekLeaf(key);
      PositionSplits(stack);
      RankOfSplit(Before(stack), From(stack), key);
      assert From(stack) != [] ==> From(stack)[0] == Items(root)[Rank(Items(root), key)];
      if AtItem(stack) { Current(stack); } else { NoCurrent(stack); }
      var ref := stack[|stack| - 1];
      if ref.index >= ref.node.Count() {
        item := Next();
        if item.None? { NoCurrent(stack); }
      }
    }
  }

  // Bucket.ForEach: every item of the tree, in order.
  method ForEach(tree: Tree) returns (seen: seq<Item>)
    requires Rooted(tree)
    ensures seen == Items(tree)
  {
    hide Items, Rooted, Linked, From, After;
    var c := new Cursor(tree);
    seen := [];
    var item := c.First();
    while item.Some?
      invariant fresh(c) && c.Valid() && c.root == tree
      invariant item.Some? ==> AtItem(c.stack) && seen + From(c.stack) == Items(tree)
      invariant item.Some? ==> item == ItemAt(c.stack)
      invariant item.None? ==> seen == Items(tree)
      decreases if item.Some? then 1 + |From(c.stack)| else 0
    {
      Current(c.stack);
      ghost var rest := After(c.stack);
      assert seen + ([item.value] + rest) == (seen + [item.value]) + rest;
      seen := seen + [item.value];
      item := c.Next();
      assert item.None? ==> seen + rest == seen;
    }
  }

  // The loop from Last with Prev: in reverse order the items from the last one back to the first empty leaf,
  // which are all of them exactly when no empty leaf has items on both sides.
  method ForEachReverse(tree: Tree) returns (seen: seq<Item>)
    requires Rooted(tree)
    ensures seen == Reversed(Stretch(Trimmed(Marks(tree))))
    ensures seen == Reversed(Items(tree)) <==> !Gap(Marks(tree))
    ensures Filled(tree) ==> seen == Reversed(Items(tree))
  {
    hide Items, Rooted, Linked, Before, MarksBefore, Marks, Trimmed, Filled, Reversed, Gap, Stretch;
    var c := new Cursor(tree);
    seen := [];
    ghost var all := Stretch(Trimmed(Marks(tree)));
    NoStretch();
    ReversedLast([], Inode(0, 0, [], []));
    var item := c.Last();
    while item.Some?
      invariant fresh(c) && c.Valid() && c.root == tree
      invariant item.Some? ==> c.stack != [] && seen + Reversed(Stretch(MarksBefore(c.stack) + [item])) == Reversed(all)
      invariant item.None? ==> seen == Reversed(all)
      decreases if item.Some? then 1 + |MarksBefore(c.stack)| else 0
    {
      ghost var rest := MarksBefore(c.stack);
      StretchLast(rest, item);
      ReversedLast(Stretch(rest), item.value);
      assert seen + Reversed(Stretch(rest) + [item.value]) == (seen + [item.value]) + Reversed(Stretch(rest));
      seen := seen + [item.value];
      item := c.Prev();
      if c.stack != [] { StretchLast(MarksBefore(c.stack), item); }
    }
    PresentIsItems(tree);
    StretchIsAll(Marks(tree));
    ReversedOnce(all, Items(tree));
    if Filled(tree) { NoGapWhenFilled(tree); }
  }

  lemma NoStretch()
    ensures Stretch([]) == []
  {
  }

  lemma StretchLast(marks: seq<Option<Item>>, mark: Option<Item>)
    ensures Stretch(marks + [mark]) == if mark.None? then [] else Stretch(marks) + [mark.value]
  {
    assert (marks + [mark])[..|marks|] == marks;
  }

  lemma TrimLast(marks: seq<Option<Item>>, rest: seq<Option<Item>>, mark: Option<Item>)
    requires marks == rest + [mark]
    ensures Trimmed(marks) == if mark.None? then Trimmed(rest) else marks
  {
    assert marks[..|marks| - 1] == rest;
  }

  lemma NoGapWhenFilled(t: Tree)
    requires Filled(t)
    ensures !Gap(Marks(t))
  {
    FilledHasNoGap(t);
  }

  lemma {:induction false} ReversedOnce(a: seq<Item>, b: seq<Item>)
    ensures a == b <==> Reversed(a) == Reversed(b)
  {
    ReversedTwice(a);
    ReversedTwice(b);
  }

  lemma {:induction false} ReversedTwice(a: seq<Item>)
    ensures Reversed(Reversed(a)) == a
  {
    if a != [] {
      ReversedTwice(a[1..]);
      ReversedLast(Reversed(a[1..]), a[0]);
    }
  }

  // Leaves with [1], nothing and [5]: going back from the end, 1 is not reached.
  method ReverseStops() returns (tree: Tree, seen: seq<Item>)
    ensures Rooted(tree) && Items(tree) == [Inode(0, 0, [1], []), Inode(0, 0, [5], [])] && seen == [Inode(0, 0, [5], [])]
  {
    var one, five := Inode(0, 0, [1], []), Inode(0, 0, [5], []);
    tree := Branch([Elem([1], Leaf([one])), Elem([3], Leaf([])), Elem([5], Leaf([five]))]);
    ThreeLeaves(tree.elems, one, five);
    seen := ForEachReverse(tree);
  }

  lemma {:induction false} ThreeLeaves(elems: seq<Elem>, one: Item, five: Item)
    requires |elems| == 3 && elems[0].child == Leaf([one]) && elems[1].child == Leaf([]) && elems[2].child == Leaf([five])
    ensures var t := Branch(elems);
      Rooted(t) && Items(t) == [one, five] && Reversed(Stretch(Trimmed(Marks(t)))) == [five]
  {
    hide Reversed, Stretch, Trimmed;
    ThreeItems(elems, one, five);
    ThreeMarks(elems, one, five);
    LastOfThree(one, five);
  }

  lemma {:induction false} ThreeItems(elems: seq<Elem>, one: Item, five: Item)
    requires |elems| == 3 && elems[0].child == Leaf([one]) && elems[1].child == Leaf([]) && elems[2].child == Leaf([five])
    ensures Items(Branch(elems)) == [one, five]
  {
    assert elems[..0] == [] && elems[..3] == elems;
    ItemsOfAt(elems, 0);
    ItemsOfAt(elems, 1);
    ItemsOfAt(elems, 2);
  }

  lemma {:induction false} ThreeMarks(elems: seq<Elem>, one: Item, five: Item)
    requires |elems| == 3 && elems[0].child == Leaf([one]) && elems[1].child == Leaf([]) && elems[2].child == Leaf([five])
    ensures Marks(Branch(elems)) == [Some(one), None, Some(five)]
  {
    assert elems[..0] == [] && elems[..3] == elems;
    MarksOfAt(elems, 0);
    MarksOfAt(elems, 1);
    MarksOfAt(elems, 2);
  }

  lemma {:induction false} LastOfThree(one: Item, five: Item)
    ensures Reversed(Stretch(Trimmed([Some(one), None, Some(five)]))) == [five]
  {
    StretchLast([Some(one)] + [None], Some(five));
    StretchLast([Some(one)], None);
    assert [Some(one)] + [None] + [Some(five)] == [Some(one), None, Some(five)];
    ReversedLast([], five);
  }

  ghost function Reversed(items: seq<Item>): seq<Item> {
    if items == [] then [] else Reversed(items[1..]) + [items[0]]
  }

  lemma {:induction false} ReversedLast(items: seq<Item>, item: Item)
    ensures Reversed(items + [item]) == [item] + Reversed(items)
    ensures items == [] ==> Reversed(items) == []
  {
    if items != [] {
      ReversedLast(items[1..], item);
      assert (items + [item])[1..] == items[1..] + [item];
    }
  }

  lemma NothingLeft()
    ensures After([]) == [] && Before([]) == []
  {
  }

  lemma {:induction false} AtStart(stack: seq<Ref>)
    requires |stack| == 1 && Rooted(stack[0].node) && stack[0].index == 0
    ensures Linked(stack) && From(stack) == Items(stack[0].node) && (Inside(stack) || AtLeaf(stack))
  {
    hide RestFrom, RestAfter, Items;
    WholeAtEnds(stack[0]);
    NothingLeft();
    assert stack[..0] == [] && Items(stack[0].node) + [] == Items(stack[0].node);
  }

  // A leaf position, or none, with nothing but empty leaves after it.
  ghost predicate NearLast(root: Tree, stack: seq<Ref>)
    requires Linked(stack)
  {
    && (stack != [] ==> AtItem(stack) || stack[|stack| - 1].node.Count() == 0)
    && Items(root) == (if AtItem(stack) then Before(stack) + [ItemAt(stack).value] else Before(stack))
    && Trimmed(Marks(root)) == if AtItem(stack) then MarksBefore(stack) + [ItemAt(stack)] else Trimmed(MarksBefore(stack))
  }

  lemma NearLastAtEnd(root: Tree, stack: seq<Ref>)
    requires Inside(stack) && AtLeaf(stack) && Through(stack) == Items(root) && MarksThrough(stack) == Marks(root)
    ensures NearLast(root, stack)
  {
    hide Before, Through, MarksBefore, MarksThrough, Marks, Items, Trimmed, Inside, Linked;
    MarkAt(stack);
    InsideIsLinked(stack);
    TrimLast(Marks(root), MarksBefore(stack), ItemAt(stack));
    if AtItem(stack) { Current(stack); } else { NoCurrent(stack); }
  }

  lemma InsideIsLinked(stack: seq<Ref>)
    requires Inside(stack)
    ensures Linked(stack)
  {
  }

  lemma NearLastBefore(root: Tree, was: seq<Ref>, now: seq<Ref>, item: Option<Item>)
    requires Linked(was) && NearLast(root, was) && was != [] && was[|was| - 1].node.Count() == 0
    requires Linked(now) && item == ItemAt(now)
    requires now == [] ==> Before(was) == [] && MarksBefore(was) == []
    requires now != [] ==> MarksBefore(was) == MarksBefore(now) + [item]
    requires item.Some? ==> Before(was) == Before(now) + [item.value]
    requires item.None? && now != [] ==> Before(now) == Before(was) && now[|now| - 1].node.Count() == 0
    ensures NearLast(root, now)
  {
    hide Marks, Items, Linked;
    if now == [] {
      NothingLeft();
      NoMarks();
    } else {
      TrimLast(MarksBefore(was), MarksBefore(now), item);
    }
  }

  lemma NearLastIsLast(root: Tree, stack: seq<Ref>)
    requires Linked(stack) && NearLast(root, stack) && (stack != [] ==> stack[|stack| - 1].node.Count() != 0)
    ensures stack == [] <==> Items(root) == []
    ensures stack == [] ==> Trimmed(Marks(root)) == []
    ensures stack != [] ==> AtItem(stack) && Items(root) == Before(stack) + [ItemAt(stack).value]
    ensures stack != [] ==> Trimmed(Marks(root)) == MarksBefore(stack) + [ItemAt(stack)]
  {
    NothingLeft();
    NoMarks();
  }

  lemma {:induction false} AtEnd(stack: seq<Ref>)
    requires |stack| == 1 && Rooted(stack[0].node) && stack[0].index == stack[0].node.Count() - 1
    ensures Inside(stack) && Through(stack) == Items(stack[0].node)
  {
    hide RestThrough, RestBefore, Items;
    WholeAtEnds(stack[0]);
    NothingLeft();
    assert stack[..0] == [] && [] + Items(stack[0].node) == Items(stack[0].node);
  }
}
