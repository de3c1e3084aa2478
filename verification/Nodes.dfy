// The node of environment/bbolt/node.go: put and del on its sorted inodes, and the split by size.
module Nodes {
  import opened Inodes
  import opened Keys
  import opened PageIds

  const PAGE_ELEMENT_SIZE := 16
  const MIN_KEYS_PER_PAGE := 2

  function ElementSize(inode: Inode): nat {
    PAGE_ELEMENT_SIZE + |inode.key| + |inode.value|
  }

  // The size of a node after serialization.
  ghost function NodeSize(inodes: seq<Inode>): (size: nat)
    ensures size >= PAGE_HEADER_SIZE
  {
    if inodes == [] then PAGE_HEADER_SIZE
    else NodeSize(inodes[..|inodes| - 1]) + ElementSize(inodes[|inodes| - 1])
  }

  lemma {:induction false} NodeSizeStep(inodes: seq<Inode>, i: nat)
    requires i < |inodes|
    ensures NodeSize(inodes[..i + 1]) == NodeSize(inodes[..i]) + ElementSize(inodes[i])
    ensures inodes[..0] == [] && NodeSize([]) == PAGE_HEADER_SIZE
  {
    assert inodes[..i + 1][..i] == inodes[..i];
  }

  // Sixteen bytes for the page header, and for each inode sixteen with its key and its value.
  lemma NodeSizeIs(inodes: seq<Inode>, last: Inode)
    ensures NodeSize([]) == 16
    ensures NodeSize(inodes + [last]) == NodeSize(inodes) + 16 + |last.key| + |last.value|
  {
    assert (inodes + [last])[..|inodes|] == inodes;
  }

  lemma {:induction false} NodeSizeGrows(inodes: seq<Inode>, i: nat)
    requires i <= |inodes|
    ensures NodeSize(inodes[..i]) <= NodeSize(inodes)
    decreases |inodes| - i
  {
    if i < |inodes| {
      NodeSizeStep(inodes, i);
      NodeSizeGrows(inodes, i + 1);
    } else {
      assert inodes[..i] == inodes;
    }
  }

  ghost predicate HasKey(inodes: seq<Inode>, key: Key) {
    var r := Rank(inodes, key);
    r < |inodes| && inodes[r].key == key
  }

  // The inodes below and above a key.
  ghost function Lower(inodes: seq<Inode>, key: Key): seq<Inode> {
    inodes[..Rank(inodes, key)]
  }

  ghost function Upper(inodes: seq<Inode>, key: Key): seq<Inode> {
    inodes[if HasKey(inodes, key) then Rank(inodes, key) + 1 else Rank(inodes, key)..]
  }

  // What put and del make of the inodes.
  ghost function Inserted(inodes: seq<Inode>, oldKey: Key, inode: Inode): seq<Inode> {
    Lower(inodes, oldKey) + [inode] + Upper(inodes, oldKey)
  }

  ghost function Removed(inodes: seq<Inode>, key: Key): seq<Inode> {
    Lower(inodes, key) + Upper(inodes, key)
  }

  // The rank is the only index between the smaller keys and the others.
  lemma {:induction false} RankIs(inodes: seq<Inode>, key: Key, index: nat)
    requires index <= |inodes|
    requires forall i :: 0 <= i < index ==> Less(inodes[i].key, key)
    requires forall i :: index <= i < |inodes| ==> AtMost(key, inodes[i].key)
    ensures Rank(inodes, key) == index
  {
    assert inodes == inodes[..index] + inodes[index..];
    RankOfSplit(inodes[..index], inodes[index..], key);
  }

  // In ascending inodes the rank separates the smaller keys from the others.
  lemma {:induction false} RankSeparates(inodes: seq<Inode>, key: Key)
    requires Ascending(InodeKeys(inodes))
    ensures var r := Rank(inodes, key);
      && (forall i :: 0 <= i < r ==> Less(inodes[i].key, key))
      && (forall i :: r <= i < |inodes| ==> AtMost(key, inodes[i].key))
      && (forall i :: r < i < |inodes| ==> Less(key, inodes[i].key))
      && (HasKey(inodes, key) <==> exists inode :: inode in inodes && inode.key == key)
  {
    RankPrefix(inodes, key);
    var r := Rank(inodes, key);
    if r < |inodes| {
      Chain(inodes[r].key, key, key);
      forall i | r < i < |inodes| ensures Less(key, inodes[i].key) {
        assert Less(InodeKeys(inodes)[r], InodeKeys(inodes)[i]);
        Chain(key, inodes[r].key, inodes[i].key);
      }
    }
    forall inode | inode in inodes && inode.key == key ensures HasKey(inodes, key) {
      var i :| 0 <= i < |inodes| && inodes[i] == inode;
      LessIsTotal(key, key);
      if Less(key, key) { LessIsStrict(key, key); }
    }
  }

  lemma {:induction false} RankPrefix(inodes: seq<Inode>, key: Key)
    ensures forall i :: 0 <= i < Rank(inodes, key) ==> Less(inodes[i].key, key)
    ensures Rank(inodes, key) < |inodes| ==> !Less(inodes[Rank(inodes, key)].key, key)
  {
    if inodes != [] && Less(inodes[0].key, key) {
      RankPrefix(inodes[1..], key);
      forall i | 0 <= i < Rank(inodes, key) ensures Less(inodes[i].key, key) {
        if i > 0 { assert inodes[i] == inodes[1..][i - 1]; }
      }
    }
  }

  // A key cuts ascending inodes into the smaller ones, the one with the key if any, and the larger ones.
  lemma {:induction false} KeyCuts(inodes: seq<Inode>, key: Key)
    requires Ascending(InodeKeys(inodes))
    ensures Ascending(InodeKeys(Lower(inodes, key))) && Ascending(InodeKeys(Upper(inodes, key)))
    ensures AllBelow(Lower(inodes, key), key) && AllAbove(Upper(inodes, key), key)
    ensures forall inode :: inode in Lower(inodes, key) + Upper(inodes, key) ==> inode.key != key
    ensures forall inode :: inode in inodes <==>
      inode in Lower(inodes, key) || inode in Upper(inodes, key) ||
      (HasKey(inodes, key) && inode == inodes[Rank(inodes, key)])
  {
    hide Less, Rank;
    RankSeparates(inodes, key);
    Chain(key, key, key);
    var r := Rank(inodes, key);
    var k := if HasKey(inodes, key) then r + 1 else r;
    Slices(inodes, 0, r);
    Slices(inodes, k, |inodes|);
    assert inodes[0..r] == inodes[..r] && inodes[k..|inodes|] == inodes[k..];
    assert inodes == inodes[..r] + inodes[r..k] + inodes[k..];
    assert !Less(key, key) by { if Less(key, key) { LessIsStrict(key, key); } }
  }

  // A put is a map update: the new inode under its key, every other inode as before, in order.
  lemma {:induction false} PutIsUpdate(inodes: seq<Inode>, inode: Inode)
    requires Ascending(InodeKeys(inodes))
    ensures var after := Inserted(inodes, inode.key, inode);
      && Ascending(InodeKeys(after))
      && forall other: Inode :: other in after <==> other == inode || (other in inodes && other.key != inode.key)
  {
    hide Lower, Upper, InodeKeys;
    var lower, upper := Lower(inodes, inode.key), Upper(inodes, inode.key);
    KeyCuts(inodes, inode.key);
    OneAscends(inode);
    AscendingConcat([inode], upper);
    forall a, b | a in lower && b in [inode] + upper ensures Less(a.key, b.key) { Chain(a.key, inode.key, b.key); }
    AscendingConcat(lower, [inode] + upper);
    assert lower + [inode] + upper == lower + ([inode] + upper);
  }

  lemma OneAscends(inode: Inode)
    ensures Ascending(InodeKeys([inode]))
  {
  }

  lemma {:induction false} RemovedAt(inodes: seq<Inode>, j: nat)
    requires Ascending(InodeKeys(inodes)) && j < |inodes|
    ensures HasKey(inodes, inodes[j].key) && Rank(inodes, inodes[j].key) == j
    ensures Removed(inodes, inodes[j].key) == inodes[..j] + inodes[j + 1..]
  {
    hide Less;
    var key := inodes[j].key;
    forall i | 0 <= i < |inodes| ensures (i < j ==> Less(inodes[i].key, key)) && (i >= j ==> AtMost(key, inodes[i].key)) {
      assert InodeKeys(inodes)[i] == inodes[i].key && InodeKeys(inodes)[j] == key;
    }
    RankIs(inodes, key, j);
  }

  // A delete takes out the inode with the key and nothing else.
  lemma {:induction false} DelIsRemoval(inodes: seq<Inode>, key: Key)
    requires Ascending(InodeKeys(inodes))
    ensures var after := Removed(inodes, key);
      && Ascending(InodeKeys(after))
      && forall other: Inode :: other in after <==> other in inodes && other.key != key
  {
    hide Lower, Upper, InodeKeys;
    KeyCuts(inodes, key);
    AscendingJoin(Lower(inodes, key), Upper(inodes, key), key);
  }

  // The search and the insertion of put.
  method With(inodes: seq<Inode>, oldKey: Key, inode: Inode) returns (after: seq<Inode>)
    requires oldKey != [] && inode.key != [] && Ascending(InodeKeys(inodes))
    ensures after == Inserted(inodes, oldKey, inode)
  {
    hide Ascending;
    var keys := InodeKeys(inodes);
    var index, exact := SearchKeys(keys, oldKey);
    assert forall i :: 0 <= i < |keys| ==> keys[i] == inodes[i].key;
    RankIs(inodes, oldKey, index);
    if exact {
      assert inodes[index := inode] == inodes[..index] + [inode] + inodes[index + 1..];
      return inodes[index := inode];
    }
    return inodes[..index] + [inode] + inodes[index..];
  }

  // The search and the cut of del.
  method Without(inodes: seq<Inode>, key: Key) returns (rest: seq<Inode>, found: bool)
    requires Ascending(InodeKeys(inodes))
    ensures rest == Removed(inodes, key) && (found <==> HasKey(inodes, key))
  {
    hide Ascending;
    var keys := InodeKeys(inodes);
    var index, exact := SearchKeys(keys, key);
    assert forall i :: 0 <= i < |keys| ==> keys[i] == inodes[i].key;
    RankIs(inodes, key, index);
    if !exact {
      assert inodes[..index] + inodes[index..] == inodes;
      return inodes, false;
    }
    return inodes[..index] + inodes[index + 1..], true;
  }

  // The loop of size.
  method SizeOfInodes(inodes: seq<Inode>) returns (size: nat)
    ensures size == NodeSize(inodes)
  {
    size := PAGE_HEADER_SIZE;
    for i := 0 to |inodes|
      invariant size == NodeSize(inodes[..i])
    {
      NodeSizeStep(inodes, i);
      size := size + ElementSize(inodes[i]);
    }
    assert inodes[..|inodes|] == inodes;
  }

  // A position that splitIndex may return: at least the minimum number of inodes on either side, and
  // as many on the first page as the threshold allows.
  ghost predicate Cut(inodes: seq<Inode>, threshold: int, index: nat) {
    && MIN_KEYS_PER_PAGE <= index <= |inodes| - MIN_KEYS_PER_PAGE - 1
    && (forall i :: MIN_KEYS_PER_PAGE < i <= index ==> NodeSize(inodes[..i]) <= threshold)
    && (index == |inodes| - MIN_KEYS_PER_PAGE - 1 || NodeSize(inodes[..index + 1]) > threshold)
  }

  // What split makes of the inodes of a node.
  ghost predicate SplitInto(inodes: seq<Inode>, pieces: seq<seq<Inode>>, pageSize: nat, threshold: int)
    decreases |pieces|
  {
    if |inodes| <= MIN_KEYS_PER_PAGE * 2 || NodeSize(inodes) < pageSize then
      pieces == [inodes]
    else
      && |pieces| > 1
      && Cut(inodes, threshold, |pieces[0]|)
      && pieces[0] == inodes[..|pieces[0]|]
      && SplitInto(inodes[|pieces[0]|..], pieces[1..], pageSize, threshold)
  }

  ghost function Joined(pieces: seq<seq<Inode>>): seq<Inode> {
    if pieces == [] then [] else pieces[0] + Joined(pieces[1..])
  }

  // A split partitions the inodes in order; every piece but the last has at least two inodes, and is
  // within the threshold unless it has exactly two; the last piece fits a page unless it has at most four.
  lemma {:induction false} SplitPartitions(inodes: seq<Inode>, pieces: seq<seq<Inode>>, pageSize: nat, threshold: int)
    requires SplitInto(inodes, pieces, pageSize, threshold)
    ensures pieces != [] && Joined(pieces) == inodes
    ensures forall i :: 0 <= i < |pieces| - 1 ==>
      |pieces[i]| >= 2 && (NodeSize(pieces[i]) <= threshold || |pieces[i]| == 2)
    ensures |pieces| > 1 ==> |pieces[|pieces| - 1]| >= 3
    ensures var last := pieces[|pieces| - 1]; NodeSize(last) < pageSize || |last| <= 4
    decreases |pieces|
  {
    hide NodeSize, Cut;
    if |pieces| > 1 {
      CutBounds(inodes, threshold, |pieces[0]|);
      var n := |pieces[0]|;
      SplitPartitions(inodes[n..], pieces[1..], pageSize, threshold);
      assert forall i :: 0 < i < |pieces| ==> pieces[i] == pieces[1..][i - 1];
      assert pieces[0] + inodes[n..] == inodes;
      if |pieces| > 2 { assert |pieces[1..]| > 1; } else { assert pieces[1..] == [inodes[n..]]; }
    } else {
      assert Joined(pieces) == inodes + [];
    }
  }

  lemma CutBounds(inodes: seq<Inode>, threshold: int, index: nat)
    ensures Cut(inodes, threshold, index) ==>
      && 2 <= index <= |inodes| - 3 && (index > 2 ==> NodeSize(inodes[..index]) <= threshold)
  {
  }

  // Nothing is cut off a node of at most four inodes, or of less than a page; and a piece takes as much as the
  // threshold allows: with the first inode of the next piece it would exceed it, unless that piece is the last
  // one and has just the three inodes that are kept back for it.
  lemma {:induction false} SplitFills(inodes: seq<Inode>, pieces: seq<seq<Inode>>, pageSize: nat, threshold: int)
    requires SplitInto(inodes, pieces, pageSize, threshold)
    ensures |pieces| == 1 <==> |inodes| <= 4 || NodeSize(inodes) < pageSize
    ensures forall i :: 0 <= i < |pieces| - 1 ==> pieces[i + 1] != [] && Filled(pieces, i, threshold)
    decreases |pieces|
  {
    hide NodeSize, Cut, Filled;
    if |pieces| > 1 {
      var n := |pieces[0]|;
      CutBounds(inodes, threshold, n);
      var rest := inodes[n..];
      SplitFills(rest, pieces[1..], pageSize, threshold);
      SplitPartitions(rest, pieces[1..], pageSize, threshold);
      FirstFilled(inodes, pieces, threshold, n);
      forall i | 0 <= i < |pieces| - 1 ensures pieces[i + 1] != [] && Filled(pieces, i, threshold) {
        if i > 0 { FilledTail(pieces, i, threshold); }
      }
    }
  }

  ghost predicate Filled(pieces: seq<seq<Inode>>, i: nat, threshold: int)
    requires i + 1 < |pieces| && pieces[i + 1] != []
  {
    NodeSize(pieces[i] + [pieces[i + 1][0]]) > threshold || (i == |pieces| - 2 && |pieces[i + 1]| == 3)
  }

  lemma FilledTail(pieces: seq<seq<Inode>>, i: nat, threshold: int)
    requires 0 < i < |pieces| - 1 && pieces[1..][i] != [] && Filled(pieces[1..], i - 1, threshold)
    ensures pieces[i + 1] != [] && Filled(pieces, i, threshold)
  {
    hide NodeSize;
    assert pieces[1..][i - 1] == pieces[i] && pieces[1..][i] == pieces[i + 1];
  }

  lemma FirstFilled(inodes: seq<Inode>, pieces: seq<seq<Inode>>, threshold: int, n: nat)
    requires |pieces| > 1 && n == |pieces[0]| && Cut(inodes, threshold, n) && pieces[0] == inodes[..n]
    requires pieces[1..] != [] && Joined(pieces[1..]) == inodes[n..]
    requires |inodes[n..]| <= 4 ==> |pieces[1..]| == 1
    requires |pieces[1..]| > 1 ==> |pieces[1]| >= 2
    ensures pieces[1] != [] && Filled(pieces, 0, threshold)
  {
    hide NodeSize;
    var rest := pieces[1..];
    assert rest[0] == pieces[1] && Joined(rest) == rest[0] + Joined(rest[1..]);
    if |rest| == 1 { assert rest[1..] == [] && Joined(rest) == rest[0] + [] == rest[0]; }
    assert pieces[1][0] == inodes[n..][0] == inodes[n];
    assert inodes[..n] + [inodes[n]] == inodes[..n + 1];
  }

  // So a piece with more than four inodes fits one page.
  lemma BigPiecesFit(inodes: seq<Inode>, pieces: seq<seq<Inode>>, pageSize: nat, threshold: int, i: nat)
    requires SplitInto(inodes, pieces, pageSize, threshold) && threshold <= pageSize
    requires i < |pieces| && |pieces[i]| > 4
    ensures NodeSize(pieces[i]) <= pageSize
  {
    SplitPartitions(inodes, pieces, pageSize, threshold);
  }

  // The pieces are determined by the sizes.
  lemma {:induction false} SplitIsUnique(inodes: seq<Inode>, pieces: seq<seq<Inode>>, others: seq<seq<Inode>>, pageSize: nat, threshold: int)
    requires SplitInto(inodes, pieces, pageSize, threshold) && SplitInto(inodes, others, pageSize, threshold)
    ensures pieces == others
    decreases |pieces|
  {
    if |pieces| > 1 {
      CutIsUnique(inodes, threshold, |pieces[0]|, |others[0]|);
      SplitIsUnique(inodes[|pieces[0]|..], pieces[1..], others[1..], pageSize, threshold);
      assert pieces == [pieces[0]] + pieces[1..] && others == [others[0]] + others[1..];
    }
  }

  lemma CutIsUnique(inodes: seq<Inode>, threshold: int, i: nat, j: nat)
    requires Cut(inodes, threshold, i) && Cut(inodes, threshold, j)
    ensures i == j
  {
  }

  class Node {
    var isLeaf: bool
    var unbalanced: bool
    var pgid: nat
    var key: Key
    var inodes: seq<Inode>

    constructor (isLeaf: bool, inodes: seq<Inode>)
      ensures this.isLeaf == isLeaf && this.inodes == inodes
      ensures !unbalanced && pgid == 0 && key == []
    {
      this.isLeaf, this.inodes := isLeaf, inodes;
      unbalanced, pgid, key := false, 0, [];
    }

    // put: under the key of an old inode or as a new one.
    method Put(oldKey: Key, newKey: Key, value: seq<Byte>, pgid: nat, flags: nat)
      requires oldKey != [] && newKey != [] && Ascending(InodeKeys(inodes))
      modifies this`inodes
      ensures inodes == Inserted(old(inodes), oldKey, Inode(flags, pgid, newKey, value))
    {
      inodes := With(inodes, oldKey, Inode(flags, pgid, newKey, value));
    }

    // del: a key that is not there changes nothing and leaves the node balanced.
    method Del(key: Key)
      requires Ascending(InodeKeys(inodes))
      modifies this`inodes, this`unbalanced
      ensures inodes == Removed(old(inodes), key)
      ensures unbalanced == (old(unbalanced) || HasKey(old(inodes), key))
    {
      var found: bool;
      inodes, found := Without(inodes, key);
      if found { unbalanced := true; }
    }

    method Size() returns (size: nat)
      ensures size == NodeSize(inodes)
    {
      size := SizeOfInodes(inodes);
    }

    // Stops at the first inode that reaches the bound; a node without inodes is below every bound.
    method SizeLessThan(v: nat) returns (less: bool)
      ensures less <==> inodes == [] || NodeSize(inodes) < v
    {
      var size := PAGE_HEADER_SIZE;
      for i := 0 to |inodes|
        invariant size == NodeSize(inodes[..i]) && (i > 0 ==> size < v)
      {
        NodeSizeStep(inodes, i);
        NodeSizeGrows(inodes, i + 1);
        size := size + ElementSize(inodes[i]);
        if size >= v { return false; }
      }
      assert inodes[..|inodes|] == inodes;
      return true;
    }

    // splitIndex: the size it returns is that of the first page exactly when the loop was left early.
    method SplitIndex(threshold: int) returns (index: nat, size: nat)
      requires |inodes| > MIN_KEYS_PER_PAGE * 2
      ensures Cut(inodes, threshold, index)
      ensures size == NodeSize(inodes[..index]) <==> NodeSize(inodes[..index + 1]) > threshold
    {
      hide NodeSize;
      size, index := PAGE_HEADER_SIZE, 0;
      var i := 0;
      NodeSizeStep(inodes, 0);
      while i < |inodes| - MIN_KEYS_PER_PAGE
        invariant 0 <= i <= |inodes| - MIN_KEYS_PER_PAGE && index == (if i == 0 then 0 else i - 1)
        invariant size == NodeSize(inodes[..i])
        invariant forall k :: MIN_KEYS_PER_PAGE < k <= i ==> NodeSize(inodes[..k]) <= threshold
      {
        index := i;
        NodeSizeStep(inodes, i);
        if index >= MIN_KEYS_PER_PAGE && size + ElementSize(inodes[i]) > threshold { return; }
        size := size + ElementSize(inodes[i]);
        i := i + 1;
      }
      NodeSizeStep(inodes, index);
    }

    // splitTwo: cuts off a second node if the inodes do not fit.
    method SplitTwo(pageSize: nat, threshold: int) returns (next: Node?)
      modifies this`inodes
      ensures next == null <==> |old(inodes)| <= MIN_KEYS_PER_PAGE * 2 || NodeSize(old(inodes)) < pageSize
      ensures next == null ==> inodes == old(inodes)
      ensures next != null ==>
        && fresh(next) && next.isLeaf == isLeaf && next.pgid == 0 && next.key == []
        && |inodes| <= |old(inodes)| && Cut(old(inodes), threshold, |inodes|)
        && inodes == old(inodes)[..|inodes|] && next.inodes == old(inodes)[|inodes|..]
    {
      var small := SizeLessThan(pageSize);
      if |inodes| <= MIN_KEYS_PER_PAGE * 2 || small { return null; }
      var splitIndex, _ := SplitIndex(threshold);
      next := new Node(isLeaf, inodes[splitIndex..]);
      inodes := inodes[..splitIndex];
    }

    // split: cuts until what is left fits.
    method Split(pageSize: nat, threshold: int) returns (nodes: seq<Node>)
      modifies this`inodes
      ensures nodes != [] && nodes[0] == this
      ensures forall i :: 0 < i < |nodes| ==>
        fresh(nodes[i]) && nodes[i].isLeaf == isLeaf && nodes[i].pgid == 0 && nodes[i].key == []
      ensures SplitInto(old(inodes), InodesOf(nodes), pageSize, threshold)
    {
      hide Cut, SplitInto, SplitPrefix, NodeSize;
      nodes := [];
      var node: Node := this;
      ghost var done: seq<seq<Inode>> := [];
      NothingCut(inodes, pageSize, threshold);
      while true
        invariant |nodes| == |done| && node !in nodes && SplitPrefix(old(inodes), done, node.inodes, pageSize, threshold)
        invariant forall i :: 0 <= i < |nodes| ==> nodes[i].inodes == done[i]
        invariant (nodes + [node])[0] == this && (node == this || fresh(node)) && node.isLeaf == isLeaf
        invariant forall i :: 0 < i <= |nodes| ==>
          var n := (nodes + [node])[i]; fresh(n) && n.isLeaf == isLeaf && n.pgid == 0 && n.key == []
        decreases |node.inodes|
      {
        ghost var rest := node.inodes;
        var b := node.SplitTwo(pageSize, threshold);
        nodes := nodes + [node];
        if b == null {
          assert InodesOf(nodes) == done + [rest];
          LastPiece(old(inodes), done, rest, pageSize, threshold);
          break;
        }
        NextPiece(old(inodes), done, rest, |node.inodes|, pageSize, threshold);
        done := done + [node.inodes];
        node := b;
      }
    }
  }

  // Pieces cut so far, and what is left of the inodes.
  ghost predicate SplitPrefix(inodes: seq<Inode>, done: seq<seq<Inode>>, rest: seq<Inode>, pageSize: nat, threshold: int)
  {
    if done == [] then rest == inodes else
      && |inodes| > MIN_KEYS_PER_PAGE * 2 && NodeSize(inodes) >= pageSize
      && Cut(inodes, threshold, |done[0]|)
      && done[0] == inodes[..|done[0]|]
      && SplitPrefix(inodes[|done[0]|..], done[1..], rest, pageSize, threshold)
  }

  // Five small inodes and a threshold above them all: the size counts one inode more than the index. Its
  // only caller, splitTwo, does not use the size.
  method OneTooMany() returns (inodes: seq<Inode>, index: nat, size: nat)
    ensures |inodes| == 5 && index == 2 && size != NodeSize(inodes[..index])
  {
    var item := Inode(0, 0, [7], []);
    inodes := [item, item, item, item, item];
    var node := new Node(true, inodes);
    index, size := node.SplitIndex(4096);
    NodeSizeStep(inodes, 0);
    NodeSizeStep(inodes, 1);
    NodeSizeStep(inodes, 2);
  }

  lemma NothingCut(inodes: seq<Inode>, pageSize: nat, threshold: int)
    ensures SplitPrefix(inodes, [], inodes, pageSize, threshold)
  {
  }

  lemma {:induction false} NextPiece(inodes: seq<Inode>, done: seq<seq<Inode>>, rest: seq<Inode>, n: nat, pageSize: nat, threshold: int)
    requires SplitPrefix(inodes, done, rest, pageSize, threshold)
    requires |rest| > MIN_KEYS_PER_PAGE * 2 && NodeSize(rest) >= pageSize && Cut(rest, threshold, n)
    ensures n < |rest| && n > 0 && SplitPrefix(inodes, done + [rest[..n]], rest[n..], pageSize, threshold)
    decreases |done|
  {
    if done != [] {
      NextPiece(inodes[|done[0]|..], done[1..], rest, n, pageSize, threshold);
      assert (done + [rest[..n]])[1..] == done[1..] + [rest[..n]];
    } else {
      assert (done + [rest[..n]])[1..] == [];
    }
  }

  lemma {:induction false} LastPiece(inodes: seq<Inode>, done: seq<seq<Inode>>, rest: seq<Inode>, pageSize: nat, threshold: int)
    requires SplitPrefix(inodes, done, rest, pageSize, threshold)
    requires |rest| <= MIN_KEYS_PER_PAGE * 2 || NodeSize(rest) < pageSize
    ensures SplitInto(inodes, done + [rest], pageSize, threshold)
    decreases |done|
  {
    if done != [] {
      LastPiece(inodes[|done[0]|..], done[1..], rest, pageSize, threshold);
      assert (done + [rest])[1..] == done[1..] + [rest];
    }
  }

  ghost function InodesOf(nodes: seq<Node>): seq<seq<Inode>>
    reads nodes
  {
    seq(|nodes|, i requires 0 <= i < |nodes| reads nodes => nodes[i].inodes)
  }
}
