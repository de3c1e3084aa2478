// The separators of a bucket's tree as bounds for everything under them, and how rewiring keeps them.
module Bounds {
  import opened Inodes
  import opened Keys
  import opened Levels
  import opened Options
  import opened PageIds

  // The bounds of the kid at an index. Along the left edge of the tree there is no lower one.
  function LowerAt(inodes: seq<Inode>, i: nat, lo: Option<Key>): Option<Key>
    requires i < |inodes|
  {
    if i == 0 && lo.None? then None else Some(inodes[i].key)
  }

  function UpperAt(inodes: seq<Inode>, i: nat, hi: Option<Key>): Option<Key> {
    if i + 1 < |inodes| then Some(inodes[i + 1].key) else hi
  }

  ghost predicate KeysWithin(inodes: seq<Inode>, lo: Option<Key>, hi: Option<Key>) {
    Ascending(InodeKeys(inodes)) && forall e :: e in inodes ==> e.key != [] && AtLeast(e.key, lo) && Beneath(e.key, hi)
  }

  // Every node under q, h levels deep, has its keys in order and within the bounds that lead to it.
  ghost predicate Bounded(s: Store, q: Pgid, h: nat, lo: Option<Key>, hi: Option<Key>)
    decreases h, 1
  {
    && KeysWithin(s.Inodes(q), lo, hi)
    && (h > 0 ==> forall i :: 0 <= i < |s.Inodes(q)| ==> KidBounded(s, s.Inodes(q), i, h, lo, hi))
  }

  ghost predicate KidBounded(s: Store, inodes: seq<Inode>, i: nat, h: nat, lo: Option<Key>, hi: Option<Key>)
    requires h > 0 && i < |inodes|
    decreases h, 0
  {
    Bounded(s, inodes[i].pgid, h - 1, LowerAt(inodes, i, lo), UpperAt(inodes, i, hi))
  }

  // One pair of bounds admits all that another does.
  ghost predicate Looser(lo: Option<Key>, hi: Option<Key>, lo': Option<Key>, hi': Option<Key>) {
    && (lo'.Some? ==> lo.Some? && AtMost(lo'.value, lo.value))
    && (hi'.Some? ==> hi.Some? && AtMost(hi.value, hi'.value))
  }

  lemma {:induction false} Loosen(s: Store, q: Pgid, h: nat, lo: Option<Key>, hi: Option<Key>, lo': Option<Key>, hi': Option<Key>)
    requires Bounded(s, q, h, lo, hi) && Looser(lo, hi, lo', hi')
    ensures Bounded(s, q, h, lo', hi')
    decreases h
  {
    hide Less, Ascending;
    var inodes := s.Inodes(q);
    forall e | e in inodes ensures AtLeast(e.key, lo') && Beneath(e.key, hi') {
      if lo'.Some? { Chain(lo'.value, lo.value, e.key); }
      if hi'.Some? { Chain(e.key, hi.value, hi'.value); }
    }
    if h > 0 {
      forall i | 0 <= i < |inodes| ensures KidBounded(s, inodes, i, h, lo', hi') {
        assert KidBounded(s, inodes, i, h, lo, hi);
        Loosen(s, inodes[i].pgid, h - 1, LowerAt(inodes, i, lo), UpperAt(inodes, i, hi), LowerAt(inodes, i, lo'), UpperAt(inodes, i, hi'));
      }
    }
  }

  // The ids under two parts of a level.
  lemma {:induction false} IdsConcat(s: Store, a: seq<Pgid>, b: seq<Pgid>, h: nat)
    ensures multiset(TreeIds(s, a + b, h)) == multiset(TreeIds(s, a, h)) + multiset(TreeIds(s, b, h))
    decreases h
  {
    hide Kids;
    if h > 0 {
      KidsConcat(s, a, b);
      IdsConcat(s, Kids(s, a), Kids(s, b), h - 1);
    }
  }

  ghost predicate Once(ids: seq<Pgid>, q: Pgid) {
    multiset(ids)[q] <= 1
  }

  lemma {:induction false} DistinctCounts(ids: seq<Pgid>)
    ensures Distinct(ids) <==> forall q :: Once(ids, q)
  {
    if ids != [] {
      var k := |ids| - 1;
      DistinctCounts(ids[..k]);
      assert ids == ids[..k] + [ids[k]];
      assert multiset(ids) == multiset(ids[..k]) + multiset{ids[k]};
      if Distinct(ids) {
        assert Distinct(ids[..k]) && ids[k] !in ids[..k];
        forall q: Pgid ensures Once(ids, q) { assert Once(ids[..k], q) && multiset(ids[..k])[ids[k]] == 0; }
      }
      if forall q :: Once(ids, q) {
        forall q: Pgid ensures Once(ids[..k], q) { assert Once(ids, q); }
        assert Once(ids, ids[k]);
        assert ids[k] !in ids[..k];
      }
    }
  }

  lemma {:induction false} LayeredPart(s: Store, ps: seq<Pgid>, qs: seq<Pgid>, h: nat)
    requires Layered(s, ps, h) && forall q :: q in qs ==> q in ps
    ensures Layered(s, qs, h)
    decreases h
  {
    hide Kids;
    if h > 0 {
      forall c | c in Kids(s, qs) ensures c in Kids(s, ps) {
        LevelOfKid(s, qs, c);
        var p :| p in qs && c in KidsOf(s, p);
        KidOfLevel(s, ps, p, c);
      }
      LayeredPart(s, Kids(s, ps), Kids(s, qs), h - 1);
    }
  }

  ghost predicate Apart(s: Store, ps: seq<Pgid>, h: nat, i: nat)
    requires i < |ps|
  {
    forall j, q :: 0 <= j < |ps| && j != i && q in TreeIds(s, [ps[i]], h) ==> q !in TreeIds(s, [ps[j]], h)
  }

  lemma ApartFrom(s: Store, ps: seq<Pgid>, h: nat, i: nat, j: nat)
    requires i < |ps| && j < |ps| && i != j && Apart(s, ps, h, i)
    ensures forall q :: q in TreeIds(s, [ps[i]], h) ==> q !in TreeIds(s, [ps[j]], h)
  {
  }

  // The subtree of one node of a level: whole, part of the level's, and apart from the others'.
  lemma {:induction false} SubtreeOf(s: Store, ps: seq<Pgid>, h: nat, i: nat)
    requires Whole(s, ps, h) && i < |ps|
    ensures Whole(s, [ps[i]], h)
    ensures forall q :: q in TreeIds(s, [ps[i]], h) ==> q in TreeIds(s, ps, h)
    ensures Apart(s, ps, h, i)
  {
    hide TreeIds, Layered, Distinct;
    var a, b := ps[..i], ps[i + 1..];
    LayeredPart(s, ps, [ps[i]], h);
    SplitIds(s, ps, h, i);
    var all, mine := multiset(TreeIds(s, ps, h)), multiset(TreeIds(s, [ps[i]], h));
    DistinctCounts(TreeIds(s, ps, h));
    DistinctCounts(TreeIds(s, [ps[i]], h));
    forall q: Pgid ensures Once(TreeIds(s, [ps[i]], h), q) { assert Once(TreeIds(s, ps, h), q); }
    forall q | q in TreeIds(s, [ps[i]], h) ensures q in TreeIds(s, ps, h) { assert q in mine && q in all; }
    forall j, q | 0 <= j < |ps| && j != i && q in TreeIds(s, [ps[i]], h) ensures q !in TreeIds(s, [ps[j]], h) {
      var rest := if j < i then a else b;
      var k := if j < i then j else j - i - 1;
      SplitIds(s, rest, h, k);
      assert mine[q] >= 1 && Once(TreeIds(s, ps, h), q);
      assert multiset(TreeIds(s, rest, h))[q] == 0;
    }
  }

  lemma {:induction false} SplitIds(s: Store, ps: seq<Pgid>, h: nat, i: nat)
    requires i < |ps|
    ensures multiset(TreeIds(s, ps, h)) ==
      multiset(TreeIds(s, ps[..i], h)) + multiset(TreeIds(s, [ps[i]], h)) + multiset(TreeIds(s, ps[i + 1..], h))
  {
    assert ps == ps[..i] + [ps[i]] + ps[i + 1..];
    IdsConcat(s, ps[..i] + [ps[i]], ps[i + 1..], h);
    IdsConcat(s, ps[..i], [ps[i]], h);
  }

  // The subtree of c is part of that of p, without p.
  ghost predicate Inside(s: Store, c: Pgid, g: nat, p: Pgid, h: nat) {
    forall q :: q in TreeIds(s, [c], g) ==> q in TreeIds(s, [p], h) && q != p
  }

  // The kids of one node, and their subtrees.
  lemma {:induction false} KidSubtrees(s: Store, p: Pgid, h: nat, i: nat)
    requires Whole(s, [p], h) && h > 0 && i < |s.Inodes(p)|
    ensures var kids := KidsOf(s, p);
      && Whole(s, [kids[i]], h - 1)
      && Inside(s, kids[i], h - 1, p, h)
      && Apart(s, kids, h - 1, i)
  {
    hide TreeIds, Layered, Distinct, Entries;
    EntriesOfOne(s, p);
    WholeBelow(s, [p], h);
    Deeper(s, [p], h);
    SubtreeOf(s, KidsOf(s, p), h - 1, i);
    assert p in [p];
  }

  lemma TopIn(s: Store, p: Pgid, h: nat)
    ensures p in TreeIds(s, [p], h)
  {
    assert p in [p];
  }

  lemma {:induction false} BoundedFrame(s: Store, t: Store, q: Pgid, h: nat, lo: Option<Key>, hi: Option<Key>)
    requires Whole(s, [q], h) && Agree(s, t, TreeIds(s, [q], h)) && Bounded(s, q, h, lo, hi)
    ensures Bounded(t, q, h, lo, hi)
    decreases h
  {
    hide TreeIds, Layered, Distinct, Whole, KeysWithin;
    TopIn(s, q, h);
    if h > 0 {
      var inodes := s.Inodes(q);
      forall i | 0 <= i < |inodes| ensures KidBounded(t, inodes, i, h, lo, hi) {
        assert KidBounded(s, inodes, i, h, lo, hi) && KidsOf(s, q)[i] == inodes[i].pgid;
        KidSubtrees(s, q, h, i);
        BoundedFrame(s, t, inodes[i].pgid, h - 1, LowerAt(inodes, i, lo), UpperAt(inodes, i, hi));
      }
    }
  }

  // The kid whose subtree a node is in.
  lemma {:induction false} KidOver(s: Store, q: Pgid, h: nat, p: Pgid) returns (i: nat)
    requires p in TreeIds(s, [q], h) && p != q
    ensures h > 0 && i < |s.Inodes(q)| && p in TreeIds(s, [s.Inodes(q)[i].pgid], h - 1)
  {
    EntriesOfOne(s, q);
    assert p !in [q];
    assert h > 0;
    i := PartOver(s, KidsOf(s, q), h - 1, p);
  }

  lemma {:induction false} PartOver(s: Store, ps: seq<Pgid>, h: nat, p: Pgid) returns (i: nat)
    requires p in TreeIds(s, ps, h)
    ensures i < |ps| && p in TreeIds(s, [ps[i]], h)
    decreases |ps|
  {
    hide TreeIds;
    NothingUnder(s, h);
    i := 0;
    if ps != [] {
      SplitIds(s, ps, h, 0);
      assert ps[..0] == [];
      if p !in TreeIds(s, [ps[0]], h) {
        assert p in multiset(TreeIds(s, ps, h));
        assert p in multiset(TreeIds(s, ps[1..], h));
        i := PartOver(s, ps[1..], h, p);
        i := i + 1;
      }
    }
  }

  lemma {:induction false} NothingUnder(s: Store, h: nat)
    ensures TreeIds(s, [], h) == []
    decreases h
  {
    if h > 0 {
      assert Kids(s, []) == [];
      NothingUnder(s, h - 1);
    }
  }

  // The rewired branch stays within whatever bounds it has.
  ghost predicate StaysBounded(s: Store, t: Store, p: Pgid, ids: seq<Pgid>) {
    forall h, lo, hi ::
      Whole(s, [p], h) && Covers(ids, TreeIds(s, [p], h)) && Bounded(s, p, h, lo, hi) ==> Bounded(t, p, h, lo, hi)
  }

  ghost predicate Covers(ids: seq<Pgid>, qs: seq<Pgid>) {
    forall q :: q in qs ==> q in ids
  }

  // And then so does every node above it.
  lemma {:induction false} RewireBounded(s: Store, t: Store, q: Pgid, h: nat, lo: Option<Key>, hi: Option<Key>, r: Rewire, ids: seq<Pgid>)
    requires Whole(s, [q], h) && Rewires(s, t, r) && KidsFit(s, ids, r) && r.p in TreeIds(s, [q], h)
    requires Covers(ids, TreeIds(s, [q], h))
    requires Bounded(s, q, h, lo, hi) && StaysBounded(s, t, r.p, ids)
    ensures Bounded(t, q, h, lo, hi)
    decreases h
  {
    hide TreeIds, Layered, Distinct, KeysWithin, Entries, Rewires, KidsFit, Apart;
    if q != r.p {
      var k := KidOver(s, q, h, r.p);
      RewireElsewhere(s, t, [q], h, r, ids);
      assert q in [q] && t.Inodes(q) == s.Inodes(q);
      var inodes := s.Inodes(q);
      forall i | 0 <= i < |inodes| ensures KidBounded(t, inodes, i, h, lo, hi) {
        assert KidBounded(s, inodes, i, h, lo, hi) && KidsOf(s, q)[i] == inodes[i].pgid && KidsOf(s, q)[k] == inodes[k].pgid;
        KidSubtrees(s, q, h, i);
        var lo', hi' := LowerAt(inodes, i, lo), UpperAt(inodes, i, hi);
        if i == k {
          RewireBounded(s, t, inodes[i].pgid, h - 1, lo', hi', r, ids);
        } else {
          KidSubtrees(s, q, h, k);
          ApartFrom(s, KidsOf(s, q), h - 1, i, k);
          RewireBeside(s, t, inodes[k].pgid, inodes[i].pgid, h - 1, r, ids);
          BoundedFrame(s, t, inodes[i].pgid, h - 1, lo', hi');
        }
      }
    }
  }

  // A subtree beside the one that is rewired.
  lemma {:induction false} RewireBeside(s: Store, t: Store, c: Pgid, d: Pgid, h: nat, r: Rewire, ids: seq<Pgid>)
    requires Whole(s, [c], h) && Rewires(s, t, r) && KidsFit(s, ids, r) && r.p in TreeIds(s, [c], h)
    requires forall k :: k in TreeIds(s, [d], h) ==> k in ids && k !in TreeIds(s, [c], h)
    ensures Agree(s, t, TreeIds(s, [d], h))
  {
    hide TreeIds, Layered, Distinct, Entries, Rewires, KidsFit;
    RewireShape(s, t, r);
    forall k | k in Pgids(r.Block(s)) ensures k in TreeIds(s, [c], h) {
      KidsBelow(s, [c], h, r.p, k);
      Deeper(s, [c], h);
    }
    Untouched(s, t, r, ids, TreeIds(s, [d], h));
  }

  // The new inodes fit between their neighbours, and their nodes within the new bounds.
  ghost predicate Fits(s: Store, t: Store, r: Rewire, h: nat, lo: Option<Key>, hi: Option<Key>)
    requires h > 0 && r.a < r.b <= |s.Inodes(r.p)|
  {
    var right := s.Inodes(r.p)[r.b..];
    && Ascending(InodeKeys(r.with))
    && (forall e :: e in r.with ==>
      && e.key != []
      && (r.a > 0 || lo.Some? ==> AtMost(s.Inodes(r.p)[r.a].key, e.key))
      && Beneath(e.key, if right != [] then Some(right[0].key) else hi))
    && (forall j :: r.a <= j < r.a + |r.with| ==> KidBounded(t, r.Result(s), j, h, lo, hi))
  }

  lemma KeyAt(inodes: seq<Inode>, i: nat, j: nat)
    requires Ascending(InodeKeys(inodes)) && i < |inodes| && j < |inodes|
    ensures i < j ==> Less(inodes[i].key, inodes[j].key)
    ensures i <= j ==> AtMost(inodes[i].key, inodes[j].key)
  {
    assert InodeKeys(inodes)[i] == inodes[i].key && InodeKeys(inodes)[j] == inodes[j].key;
  }

  lemma {:induction false} LeftOfRight(s: Store, r: Rewire)
    requires r.a < r.b <= |s.Inodes(r.p)| && Ascending(InodeKeys(s.Inodes(r.p)))
    requires forall e :: e in r.with ==> r.b < |s.Inodes(r.p)| ==> Less(e.key, s.Inodes(r.p)[r.b].key)
    ensures forall a, b :: a in s.Inodes(r.p)[..r.a] + r.with && b in s.Inodes(r.p)[r.b..] ==> Less(a.key, b.key)
  {
    hide Less, InodeKeys, Ascending;
    var inodes := s.Inodes(r.p);
    var left, right := inodes[..r.a], inodes[r.b..];
    forall a, b | a in left + r.with && b in right ensures Less(a.key, b.key) {
      var j :| 0 <= j < |right| && right[j] == b;
      KeyAt(inodes, r.b, r.b + j);
      if a in left {
        var i :| 0 <= i < |left| && left[i] == a;
        KeyAt(inodes, i, r.b + j);
      } else {
        Chain(a.key, inodes[r.b].key, b.key);
      }
    }
  }

  lemma {:induction false} ResultKeys(s: Store, t: Store, r: Rewire, h: nat, lo: Option<Key>, hi: Option<Key>)
    requires h > 0 && r.a < r.b <= |s.Inodes(r.p)| && Fits(s, t, r, h, lo, hi) && KeysWithin(s.Inodes(r.p), lo, hi)
    ensures KeysWithin(r.Result(s), lo, hi)
  {
    hide Less, InodeKeys, Ascending, KidBounded;
    var inodes := s.Inodes(r.p);
    var left, right := inodes[..r.a], inodes[r.b..];
    Slices(inodes, 0, r.a);
    Slices(inodes, r.b, |inodes|);
    assert inodes[0..r.a] == left && inodes[r.b..|inodes|] == right;
    assert forall e :: e in left || e in right ==> e in inodes;
    assert inodes[r.a] in inodes;
    forall a, b | a in left && b in r.with ensures Less(a.key, b.key) {
      var i :| 0 <= i < |left| && left[i] == a;
      KeyAt(inodes, i, r.a);
      Chain(a.key, inodes[r.a].key, b.key);
    }
    AscendingConcat(left, r.with);
    LeftOfRight(s, r);
    AscendingConcat(left + r.with, right);
    forall e | e in r.with ensures AtLeast(e.key, lo) && Beneath(e.key, hi) {
      if lo.Some? { Chain(lo.value, inodes[r.a].key, e.key); }
      if hi.Some? && right != [] { Chain(e.key, right[0].key, hi.value); }
    }
  }

  // A kid of the branch that is not in the block.
  lemma {:induction false} OtherKid(s: Store, t: Store, r: Rewire, ids: seq<Pgid>, h: nat, lo: Option<Key>, hi: Option<Key>, i: nat)
    requires Whole(s, [r.p], h) && h > 0 && Rewires(s, t, r) && KidsFit(s, ids, r) && Covers(ids, TreeIds(s, [r.p], h))
    requires i < |s.Inodes(r.p)| && !(r.a <= i < r.b) && KidBounded(s, s.Inodes(r.p), i, h, lo, hi)
    ensures KidBounded(t, s.Inodes(r.p), i, h, lo, hi)
  {
    hide TreeIds, Layered, Distinct, Entries, Rewires, KidsFit, Apart;
    RewireShape(s, t, r);
    var kids, inodes := KidsOf(s, r.p), s.Inodes(r.p);
    assert kids[i] == inodes[i].pgid;
    KidSubtrees(s, r.p, h, i);
    forall q | q in TreeIds(s, [kids[i]], h - 1) ensures q in ids && q != r.p && q !in Pgids(r.Block(s)) {
      assert q in TreeIds(s, [r.p], h);
      if q in Pgids(r.Block(s)) {
        var j :| 0 <= j < |r.Block(s)| && Pgids(r.Block(s))[j] == q;
        assert kids[r.a + j] == q;
        ApartFrom(s, kids, h - 1, i, r.a + j);
        TopIn(s, q, h - 1);
      }
    }
    Untouched(s, t, r, ids, TreeIds(s, [kids[i]], h - 1));
    BoundedFrame(s, t, kids[i], h - 1, LowerAt(inodes, i, lo), UpperAt(inodes, i, hi));
  }

  lemma {:induction false} ResultKids(s: Store, t: Store, r: Rewire, ids: seq<Pgid>, h: nat, lo: Option<Key>, hi: Option<Key>, i: nat)
    requires Whole(s, [r.p], h) && h > 0 && Rewires(s, t, r) && KidsFit(s, ids, r) && Covers(ids, TreeIds(s, [r.p], h))
    requires Bounded(s, r.p, h, lo, hi) && Fits(s, t, r, h, lo, hi) && i < |r.Result(s)|
    ensures KidBounded(t, r.Result(s), i, h, lo, hi)
  {
    hide TreeIds, Layered, Distinct, Entries, Rewires, KidsFit, Less, InodeKeys, Ascending, Bounded, Covers, Whole, Fits;
    RewireShape(s, t, r);
    FitsInside(s, t, r, h, lo, hi);
    var inodes, result := s.Inodes(r.p), r.Result(s);
    BoundedParts(s, r.p, h, lo, hi);
    if i < r.a {
      OtherKid(s, t, r, ids, h, lo, hi, i);
      assert result[i] == inodes[i];
      if i + 1 < r.a { assert result[i + 1] == inodes[i + 1]; } else { NextAfterLeft(s, t, r, h, lo, hi); }
      Loosen(t, inodes[i].pgid, h - 1, LowerAt(inodes, i, lo), UpperAt(inodes, i, hi), LowerAt(result, i, lo), UpperAt(result, i, hi));
    } else if i >= r.a + |r.with| {
      var k := i - |r.with| + (r.b - r.a);
      OtherKid(s, t, r, ids, h, lo, hi, k);
      assert result[i] == inodes[k];
      if i + 1 < |result| { assert result[i + 1] == inodes[k + 1]; }
      Loosen(t, inodes[k].pgid, h - 1, LowerAt(inodes, k, lo), UpperAt(inodes, k, hi), LowerAt(result, i, lo), UpperAt(result, i, hi));
    }
  }

  lemma FitsInside(s: Store, t: Store, r: Rewire, h: nat, lo: Option<Key>, hi: Option<Key>)
    requires h > 0 && r.a < r.b <= |s.Inodes(r.p)| && Fits(s, t, r, h, lo, hi)
    ensures forall j :: r.a <= j < r.a + |r.with| ==> KidBounded(t, r.Result(s), j, h, lo, hi)
  {
  }

  lemma BoundedParts(s: Store, q: Pgid, h: nat, lo: Option<Key>, hi: Option<Key>)
    requires Bounded(s, q, h, lo, hi)
    ensures KeysWithin(s.Inodes(q), lo, hi)
    ensures h > 0 ==> forall i :: 0 <= i < |s.Inodes(q)| ==> KidBounded(s, s.Inodes(q), i, h, lo, hi)
  {
  }

  // The upper bound of the kid left of the block does not come down.
  lemma {:induction false} NextAfterLeft(s: Store, t: Store, r: Rewire, h: nat, lo: Option<Key>, hi: Option<Key>)
    requires h > 0 && 0 < r.a < r.b <= |s.Inodes(r.p)| && Fits(s, t, r, h, lo, hi) && KeysWithin(s.Inodes(r.p), lo, hi)
    ensures var inodes, result := s.Inodes(r.p), r.Result(s);
      Looser(None, UpperAt(inodes, r.a - 1, hi), None, UpperAt(result, r.a - 1, hi))
  {
    hide Less, InodeKeys, Ascending, KidBounded;
    var inodes, result := s.Inodes(r.p), r.Result(s);
    assert inodes[r.a] in inodes;
    if r.with != [] {
      assert result[r.a] == r.with[0] && r.with[0] in r.with;
    } else if r.b < |inodes| {
      assert result[r.a] == inodes[r.b];
      KeyAt(inodes, r.a, r.b);
    }
  }

  // So the rewired branch keeps its bounds.
  lemma {:induction false} RewiredBounded(s: Store, t: Store, r: Rewire, ids: seq<Pgid>, h: nat, lo: Option<Key>, hi: Option<Key>)
    requires Whole(s, [r.p], h) && h > 0 && Rewires(s, t, r) && KidsFit(s, ids, r) && Covers(ids, TreeIds(s, [r.p], h))
    requires Bounded(s, r.p, h, lo, hi) && Fits(s, t, r, h, lo, hi)
    ensures Bounded(t, r.p, h, lo, hi)
  {
    hide TreeIds, Layered, Distinct, Entries, KidsFit, Fits, KidBounded, KeysWithin, Whole, Covers, Rewires;
    RewireShape(s, t, r);
    BoundedParts(s, r.p, h, lo, hi);
    ResultKeys(s, t, r, h, lo, hi);
    forall i | 0 <= i < |r.Result(s)| ensures KidBounded(t, r.Result(s), i, h, lo, hi) {
      ResultKids(s, t, r, ids, h, lo, hi, i);
    }
  }

  // The stores agree on all that lies strictly under a node.
  ghost predicate AgreeUnder(s: Store, t: Store, c: Pgid, h: nat) {
    forall q :: q in TreeIds(s, [c], h) && q != c ==> s.Inodes(q) == t.Inodes(q) && s.IsLeaf(q) == t.IsLeaf(q)
  }

  lemma {:induction false} KidFrame(s: Store, t: Store, c: Pgid, h: nat, lo: Option<Key>, hi: Option<Key>, i: nat)
    requires Whole(s, [c], h) && h > 0 && AgreeUnder(s, t, c, h) && i < |s.Inodes(c)|
    requires KidBounded(s, s.Inodes(c), i, h, lo, hi)
    ensures KidBounded(t, s.Inodes(c), i, h, lo, hi)
  {
    hide TreeIds, Layered, Distinct, Entries, Apart;
    assert KidsOf(s, c)[i] == s.Inodes(c)[i].pgid;
    KidSubtrees(s, c, h, i);
    var d := s.Inodes(c)[i].pgid;
    forall q | q in TreeIds(s, [d], h - 1) ensures s.Inodes(q) == t.Inodes(q) && s.IsLeaf(q) == t.IsLeaf(q) {
      assert q in TreeIds(s, [c], h) && q != c;
    }
    assert Agree(s, t, TreeIds(s, [d], h - 1));
    BoundedFrame(s, t, d, h - 1, LowerAt(s.Inodes(c), i, lo), UpperAt(s.Inodes(c), i, hi));
  }

  // Two neighbours in one.
  lemma {:induction false} JoinBounded(s: Store, t: Store, left: Pgid, right: Pgid, h: nat, lo: Option<Key>, sep: Key, hi: Option<Key>)
    requires Whole(s, [left], h) && Whole(s, [right], h) && AgreeUnder(s, t, left, h) && AgreeUnder(s, t, right, h)
    requires Bounded(s, left, h, lo, Some(sep)) && Bounded(s, right, h, Some(sep), hi)
    requires AtLeast(sep, lo) && Beneath(sep, hi)
    requires t.Inodes(left) == s.Inodes(left) + s.Inodes(right)
    ensures Bounded(t, left, h, lo, hi)
  {
    hide TreeIds, Layered, Distinct, Entries, Less, InodeKeys, Ascending, Bounded, AgreeUnder, Whole, KidBounded;
    BoundedParts(s, left, h, lo, Some(sep));
    BoundedParts(s, right, h, Some(sep), hi);
    JoinKeys(s.Inodes(left), s.Inodes(right), lo, sep, hi);
    if h > 0 {
      forall i | 0 <= i < |t.Inodes(left)| ensures KidBounded(t, t.Inodes(left), i, h, lo, hi) {
        JoinKids(s, t, left, right, h, lo, sep, hi, i);
      }
    }
    MakeBounded(t, left, h, lo, hi);
  }

  lemma MakeBounded(s: Store, q: Pgid, h: nat, lo: Option<Key>, hi: Option<Key>)
    requires KeysWithin(s.Inodes(q), lo, hi)
    requires h > 0 ==> forall i :: 0 <= i < |s.Inodes(q)| ==> KidBounded(s, s.Inodes(q), i, h, lo, hi)
    ensures Bounded(s, q, h, lo, hi)
  {
  }

  lemma {:induction false} JoinKeys(a: seq<Inode>, b: seq<Inode>, lo: Option<Key>, sep: Key, hi: Option<Key>)
    requires KeysWithin(a, lo, Some(sep)) && KeysWithin(b, Some(sep), hi) && AtLeast(sep, lo) && Beneath(sep, hi)
    ensures KeysWithin(a + b, lo, hi)
  {
    hide Less, InodeKeys, Ascending;
    AscendingJoin(a, b, sep);
    forall e | e in a + b ensures AtLeast(e.key, lo) && Beneath(e.key, hi) {
      if e in a && hi.Some? { Chain(e.key, sep, hi.value); }
      if e in b && lo.Some? { Chain(lo.value, sep, e.key); }
    }
  }

  lemma {:induction false} JoinKids(s: Store, t: Store, left: Pgid, right: Pgid, h: nat, lo: Option<Key>, sep: Key, hi: Option<Key>, i: nat)
    requires Whole(s, [left], h) && Whole(s, [right], h) && AgreeUnder(s, t, left, h) && AgreeUnder(s, t, right, h) && h > 0
    requires Bounded(s, left, h, lo, Some(sep)) && Bounded(s, right, h, Some(sep), hi) && Beneath(sep, hi)
    requires t.Inodes(left) == s.Inodes(left) + s.Inodes(right) && i < |t.Inodes(left)|
    ensures KidBounded(t, t.Inodes(left), i, h, lo, hi)
  {
    hide TreeIds, Layered, Distinct, Entries, Less, InodeKeys, Ascending, Bounded, AgreeUnder, Whole;
    BoundedParts(s, left, h, lo, Some(sep));
    BoundedParts(s, right, h, Some(sep), hi);
    var a, b, c := s.Inodes(left), s.Inodes(right), t.Inodes(left);
    if i < |a| {
      KidFrame(s, t, left, h, lo, Some(sep), i);
      if i + 1 == |a| && b != [] { assert b[0] in b && c[i + 1] == b[0]; }
      Loosen(t, a[i].pgid, h - 1, LowerAt(a, i, lo), UpperAt(a, i, Some(sep)), LowerAt(c, i, lo), UpperAt(c, i, hi));
    } else {
      var k := i - |a|;
      KidFrame(s, t, right, h, Some(sep), hi, k);
      Loosen(t, b[k].pgid, h - 1, LowerAt(b, k, Some(sep)), UpperAt(b, k, hi), LowerAt(c, i, lo), UpperAt(c, i, hi));
    }
  }

  // A run of a node's inodes in a node of its own.
  lemma {:induction false} SliceWithin(all: seq<Inode>, lo: Option<Key>, hi: Option<Key>, u: nat, v: nat)
    requires KeysWithin(all, lo, hi) && u < v <= |all|
    ensures KeysWithin(all[u..v], LowerAt(all, u, lo), UpperAt(all, v - 1, hi))
  {
    hide Less, InodeKeys, Ascending;
    var part := all[u..v];
    Slices(all, u, v);
    forall e | e in part ensures AtLeast(e.key, LowerAt(all, u, lo)) && Beneath(e.key, UpperAt(all, v - 1, hi)) {
      var i :| 0 <= i < |part| && part[i] == e;
      assert all[u + i] == e && e in all;
      KeyAt(all, u, u + i);
      if v < |all| { KeyAt(all, u + i, v); }
    }
  }

  lemma {:induction false} SliceBounded(s: Store, t: Store, c: Pgid, d: Pgid, h: nat, lo: Option<Key>, hi: Option<Key>, u: nat, v: nat)
    requires Whole(s, [c], h) && AgreeUnder(s, t, c, h) && Bounded(s, c, h, lo, hi)
    requires u < v <= |s.Inodes(c)| && t.Inodes(d) == s.Inodes(c)[u..v]
    ensures Bounded(t, d, h, LowerAt(s.Inodes(c), u, lo), UpperAt(s.Inodes(c), v - 1, hi))
  {
    hide TreeIds, Layered, Distinct, Entries, Less, InodeKeys, Ascending, Bounded, AgreeUnder, Whole;
    BoundedParts(s, c, h, lo, hi);
    var all, part := s.Inodes(c), t.Inodes(d);
    var lo', hi' := LowerAt(all, u, lo), UpperAt(all, v - 1, hi);
    SliceWithin(all, lo, hi, u, v);
    if h > 0 {
      forall i | 0 <= i < |part| ensures KidBounded(t, part, i, h, lo', hi') {
        assert KidBounded(s, all, u + i, h, lo, hi);
        KidFrame(s, t, c, h, lo, hi, u + i);
        assert LowerAt(part, i, lo') == LowerAt(all, u + i, lo) && UpperAt(part, i, hi') == UpperAt(all, u + i, hi);
      }
    }
    MakeBounded(t, d, h, lo', hi');
  }

  // The leaf sequence under a bounded node is in order and within the bounds.
  lemma {:induction false} BoundedLeaves(s: Store, q: Pgid, h: nat, lo: Option<Key>, hi: Option<Key>)
    requires Whole(s, [q], h) && Bounded(s, q, h, lo, hi)
    ensures KeysWithin(Leaves(s, [q], h), lo, hi)
    decreases h, 1, 0
  {
    hide Less, InodeKeys, Ascending, Layered, TreeIds, Distinct;
    EntriesOfOne(s, q);
    if h > 0 {
      var kids := KidsOf(s, q);
      KidLeaves(s, q, h, lo, hi, |kids|);
      assert kids[..|kids|] == kids;
    }
  }

  lemma {:induction false} LeavesConcat(s: Store, a: seq<Pgid>, b: seq<Pgid>, h: nat)
    ensures Leaves(s, a + b, h) == Leaves(s, a, h) + Leaves(s, b, h)
    decreases h
  {
    hide Kids;
    if h == 0 {
      EntriesConcat(s, a, b);
    } else {
      KidsConcat(s, a, b);
      LeavesConcat(s, Kids(s, a), Kids(s, b), h - 1);
    }
  }

  lemma {:induction false} NoLeaves(s: Store, h: nat)
    ensures Leaves(s, [], h) == []
    decreases h
  {
    if h > 0 {
      assert Kids(s, []) == [];
      NoLeaves(s, h - 1);
    }
  }

  // The first n kids.
  lemma {:induction false} KidLeaves(s: Store, q: Pgid, h: nat, lo: Option<Key>, hi: Option<Key>, n: nat)
    requires Whole(s, [q], h) && h > 0 && Bounded(s, q, h, lo, hi) && n <= |s.Inodes(q)|
    ensures n == 0 ==> Leaves(s, KidsOf(s, q)[..n], h - 1) == []
    ensures n > 0 ==> KeysWithin(Leaves(s, KidsOf(s, q)[..n], h - 1), lo, UpperAt(s.Inodes(q), n - 1, hi))
    decreases h, 0, n
  {
    hide Less, InodeKeys, Ascending, Layered, TreeIds, Distinct, Leaves, Whole, Bounded, KidBounded;
    var kids, inodes := KidsOf(s, q), s.Inodes(q);
    if n == 0 {
      assert kids[..0] == [];
      NoLeaves(s, h - 1);
    } else {
      var k := n - 1;
      BoundedParts(s, q, h, lo, hi);
      KidSubtrees(s, q, h, k);
      KidLeaves(s, q, h, lo, hi, k);
      assert KidBounded(s, inodes, k, h, lo, hi) && kids[k] == inodes[k].pgid && inodes[k] in inodes;
      KidIsBounded(s, inodes, k, h, lo, hi);
      BoundedLeaves(s, kids[k], h - 1, LowerAt(inodes, k, lo), UpperAt(inodes, k, hi));
      assert kids[..n] == kids[..k] + [kids[k]];
      LeavesConcat(s, kids[..k], [kids[k]], h - 1);
      var a, b := Leaves(s, kids[..k], h - 1), Leaves(s, [kids[k]], h - 1);
      if k == 0 {
        assert a + b == b;
        LooserKeys(b, LowerAt(inodes, 0, lo), UpperAt(inodes, 0, hi), lo);
      } else {
        if n < |inodes| { KeyAt(inodes, k, n); }
        JoinKeys(a, b, lo, inodes[k].key, UpperAt(inodes, k, hi));
      }
    }
  }

  lemma LooserKeys(keys: seq<Inode>, lo: Option<Key>, hi: Option<Key>, lo': Option<Key>)
    requires KeysWithin(keys, lo, hi) && Looser(lo, hi, lo', hi)
    ensures KeysWithin(keys, lo', hi)
  {
    hide Less, Ascending;
    forall e | e in keys ensures AtLeast(e.key, lo') { if lo'.Some? { Chain(lo'.value, lo.value, e.key); } }
  }

  lemma KidIsBounded(s: Store, inodes: seq<Inode>, i: nat, h: nat, lo: Option<Key>, hi: Option<Key>)
    requires h > 0 && i < |inodes| && KidBounded(s, inodes, i, h, lo, hi)
    ensures Bounded(s, inodes[i].pgid, h - 1, LowerAt(inodes, i, lo), UpperAt(inodes, i, hi))
  {
  }

  // The bounds of any node under a bounded one.
  lemma {:induction false} BoundedAt(s: Store, q: Pgid, h: nat, lo: Option<Key>, hi: Option<Key>, p: Pgid)
    returns (h': nat, lo': Option<Key>, hi': Option<Key>)
    requires Whole(s, [q], h) && Bounded(s, q, h, lo, hi) && p in TreeIds(s, [q], h)
    ensures h' <= h && Whole(s, [p], h') && Bounded(s, p, h', lo', hi') && Ascending(InodeKeys(s.Inodes(p)))
    decreases h
  {
    hide Layered, TreeIds, Distinct, InodeKeys, Ascending, Apart;
    if p == q {
      h', lo', hi' := h, lo, hi;
      assert KeysWithin(s.Inodes(q), lo, hi);
    } else {
      var i := KidOver(s, q, h, p);
      KidSubtrees(s, q, h, i);
      var inodes := s.Inodes(q);
      assert KidBounded(s, inodes, i, h, lo, hi) && KidsOf(s, q)[i] == inodes[i].pgid;
      h', lo', hi' := BoundedAt(s, inodes[i].pgid, h - 1, LowerAt(inodes, i, lo), UpperAt(inodes, i, hi), p);
    }
  }

  lemma {:induction false} CollapseBounded(s: Store, t: Store, root: Pgid, h: nat, child: Pgid)
    requires Whole(s, [root], h) && h > 0 && Collapses(s, t, root, child) && Bounded(s, root, h, None, None)
    ensures Bounded(t, root, h - 1, None, None)
  {
    hide Layered, TreeIds, Distinct, Apart, Whole;
    assert KidsOf(s, root)[0] == child && s.Inodes(root)[0].pgid == child;
    assert KidBounded(s, s.Inodes(root), 0, h, None, None);
    KidSubtrees(s, root, h, 0);
    forall q | q in TreeIds(s, [child], h - 1) && q != child ensures s.Inodes(q) == t.Inodes(q) && s.IsLeaf(q) == t.IsLeaf(q) {
      assert q in TreeIds(s, [KidsOf(s, root)[0]], h - 1);
      assert q in TreeIds(s, [root], h) && q != root;
    }
    assert AgreeUnder(s, t, child, h - 1);
    if s.Inodes(child) != [] {
      assert s.Inodes(child)[0..|s.Inodes(child)|] == s.Inodes(child);
      SliceBounded(s, t, child, root, h - 1, None, None, 0, |s.Inodes(child)|);
    }
  }
}
