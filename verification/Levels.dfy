// The pages of a bucket under its node cache (environment/bbolt/bucket.go, environment/bbolt/node.go),
// read level by level: what a level's nodes hold, one after the other, names the next level.
module Levels {
  import opened Inodes
  import opened Keys
  import opened Options
  import opened PageIds

  datatype Page = Page(isLeaf: bool, inodes: seq<Inode>)

  // A materialized node, in the cache under its page id.
  datatype Cached = Cached(isLeaf: bool, unbalanced: bool, key: Key, parent: Option<Pgid>, inodes: seq<Inode>)

  function FirstKey(inodes: seq<Inode>): Key {
    if inodes == [] then [] else inodes[0].key
  }

  datatype Store = Store(pages: map<Pgid, Page>, nodes: map<Pgid, Cached>)
  {
    function Inodes(p: Pgid): seq<Inode> {
      if p in nodes then nodes[p].inodes else if p in pages then pages[p].inodes else []
    }

    function IsLeaf(p: Pgid): bool {
      if p in nodes then nodes[p].isLeaf else if p in pages then pages[p].isLeaf else true
    }

    // The key by which a node finds itself in its parent.
    function KeyOf(p: Pgid): Key {
      if p in nodes then nodes[p].key else FirstKey(Inodes(p))
    }
  }

  function Pgids(inodes: seq<Inode>): (ids: seq<Pgid>)
    ensures |ids| == |inodes|
  {
    seq(|inodes|, i requires 0 <= i < |inodes| => inodes[i].pgid)
  }

  lemma PgidsConcat(a: seq<Inode>, b: seq<Inode>)
    ensures Pgids(a + b) == Pgids(a) + Pgids(b)
  {
  }

  function KidsOf(s: Store, p: Pgid): seq<Pgid> {
    Pgids(s.Inodes(p))
  }

  ghost function Entries(s: Store, ps: seq<Pgid>): seq<Inode> {
    if ps == [] then [] else s.Inodes(ps[0]) + Entries(s, ps[1..])
  }

  ghost function Kids(s: Store, ps: seq<Pgid>): seq<Pgid> {
    Pgids(Entries(s, ps))
  }

  // The inodes of the leaves under a level that lies h levels above them.
  ghost function Leaves(s: Store, ps: seq<Pgid>, h: nat): seq<Inode>
    decreases h
  {
    if h == 0 then Entries(s, ps) else Leaves(s, Kids(s, ps), h - 1)
  }

  // The ids of the level and of everything under it.
  ghost function TreeIds(s: Store, ps: seq<Pgid>, h: nat): seq<Pgid>
    decreases h
  {
    if h == 0 then ps else ps + TreeIds(s, Kids(s, ps), h - 1)
  }

  // Leaves exactly at the bottom.
  ghost predicate Layered(s: Store, ps: seq<Pgid>, h: nat)
    decreases h
  {
    && (forall p :: p in ps ==> (s.IsLeaf(p) <==> h == 0))
    && (h > 0 ==> Layered(s, Kids(s, ps), h - 1))
  }

  lemma {:induction false} EntriesConcat(s: Store, a: seq<Pgid>, b: seq<Pgid>)
    ensures Entries(s, a + b) == Entries(s, a) + Entries(s, b)
  {
    if a == [] {
      assert a + b == b;
    } else {
      EntriesConcat(s, a[1..], b);
      assert (a + b)[1..] == a[1..] + b;
    }
  }

  lemma EntriesOfOne(s: Store, p: Pgid)
    ensures Entries(s, [p]) == s.Inodes(p)
  {
    assert [p][1..] == [];
  }

  lemma KidsConcat(s: Store, a: seq<Pgid>, b: seq<Pgid>)
    ensures Kids(s, a + b) == Kids(s, a) + Kids(s, b)
  {
    EntriesConcat(s, a, b);
    PgidsConcat(Entries(s, a), Entries(s, b));
  }

  // One node of a level, between what lies left and right of it.
  lemma {:induction false} Around(s: Store, ps: seq<Pgid>, i: nat)
    requires i < |ps|
    ensures ps == ps[..i] + [ps[i]] + ps[i + 1..]
    ensures Entries(s, ps) == Entries(s, ps[..i]) + s.Inodes(ps[i]) + Entries(s, ps[i + 1..])
    ensures Kids(s, ps) == Kids(s, ps[..i]) + KidsOf(s, ps[i]) + Kids(s, ps[i + 1..])
  {
    assert ps == ps[..i] + [ps[i]] + ps[i + 1..];
    EntriesConcat(s, ps[..i] + [ps[i]], ps[i + 1..]);
    EntriesConcat(s, ps[..i], [ps[i]]);
    EntriesOfOne(s, ps[i]);
    PgidsConcat(Entries(s, ps[..i]) + s.Inodes(ps[i]), Entries(s, ps[i + 1..]));
    PgidsConcat(Entries(s, ps[..i]), s.Inodes(ps[i]));
  }

  lemma {:induction false} EntriesMember(s: Store, ps: seq<Pgid>, e: Inode)
    ensures e in Entries(s, ps) <==> exists p :: p in ps && e in s.Inodes(p)
  {
    if ps != [] {
      EntriesMember(s, ps[1..], e);
      assert ps == [ps[0]] + ps[1..];
      assert e in Entries(s, ps) <==> e in s.Inodes(ps[0]) || e in Entries(s, ps[1..]);
      if e in s.Inodes(ps[0]) { assert ps[0] in ps; }
    }
  }

  lemma KidOfLevel(s: Store, ps: seq<Pgid>, p: Pgid, c: Pgid)
    requires p in ps && c in KidsOf(s, p)
    ensures c in Kids(s, ps)
  {
    var i :| 0 <= i < |s.Inodes(p)| && KidsOf(s, p)[i] == c;
    var e := s.Inodes(p)[i];
    EntriesMember(s, ps, e);
    var k :| 0 <= k < |Entries(s, ps)| && Entries(s, ps)[k] == e;
    assert Kids(s, ps)[k] == c;
  }

  lemma LevelOfKid(s: Store, ps: seq<Pgid>, c: Pgid)
    requires c in Kids(s, ps)
    ensures exists p :: p in ps && c in KidsOf(s, p)
  {
    var k :| 0 <= k < |Kids(s, ps)| && Kids(s, ps)[k] == c;
    var e := Entries(s, ps)[k];
    EntriesMember(s, ps, e);
    var p :| p in ps && e in s.Inodes(p);
    var i :| 0 <= i < |s.Inodes(p)| && s.Inodes(p)[i] == e;
    assert KidsOf(s, p)[i] == c;
  }

  // Two stores that agree on some nodes.
  ghost predicate Agree(s: Store, t: Store, ids: seq<Pgid>) {
    forall p :: p in ids ==> s.Inodes(p) == t.Inodes(p) && s.IsLeaf(p) == t.IsLeaf(p)
  }

  lemma {:induction false} EntriesFrame(s: Store, t: Store, ps: seq<Pgid>)
    requires Agree(s, t, ps)
    ensures Entries(s, ps) == Entries(t, ps) && Kids(s, ps) == Kids(t, ps)
  {
    if ps != [] {
      assert ps[0] in ps && forall p :: p in ps[1..] ==> p in ps;
      EntriesFrame(s, t, ps[1..]);
    }
  }

  lemma {:induction false} LevelFrame(s: Store, t: Store, ps: seq<Pgid>, h: nat)
    requires Agree(s, t, TreeIds(s, ps, h))
    ensures TreeIds(s, ps, h) == TreeIds(t, ps, h) && Leaves(s, ps, h) == Leaves(t, ps, h)
    ensures Layered(s, ps, h) ==> Layered(t, ps, h)
    decreases h
  {
    hide Entries;
    assert forall p :: p in ps ==> p in TreeIds(s, ps, h);
    EntriesFrame(s, t, ps);
    if h > 0 { LevelFrame(s, t, Kids(s, ps), h - 1); }
  }

  // The kids of a branch lie below its level.
  lemma {:induction false} KidsBelow(s: Store, ps: seq<Pgid>, h: nat, p: Pgid, c: Pgid)
    requires Layered(s, ps, h) && p in TreeIds(s, ps, h) && !s.IsLeaf(p) && c in KidsOf(s, p)
    ensures h > 0 && c in TreeIds(s, Kids(s, ps), h - 1)
    decreases h
  {
    if p in ps {
      KidOfLevel(s, ps, p, c);
    } else {
      KidsBelow(s, Kids(s, ps), h - 1, p, c);
    }
  }

  lemma DistinctConcat(a: seq<Pgid>, b: seq<Pgid>)
    requires Distinct(a + b)
    ensures Distinct(a) && Distinct(b) && forall p :: p in a ==> p !in b
  {
    forall i, j | 0 <= i < j < |a| ensures a[i] != a[j] { assert (a + b)[i] == a[i] && (a + b)[j] == a[j]; }
    forall i, j | 0 <= i < j < |b| ensures b[i] != b[j] {
      assert (a + b)[|a| + i] == b[i] && (a + b)[|a| + j] == b[j];
    }
    forall i, j | 0 <= i < |a| && 0 <= j < |b| ensures a[i] != b[j] {
      assert (a + b)[i] == a[i] && (a + b)[|a| + j] == b[j];
    }
  }

  // A node that is not on top has a parent.
  lemma {:induction false} HasParent(s: Store, ps: seq<Pgid>, h: nat, c: Pgid)
    requires Layered(s, ps, h) && c in TreeIds(s, ps, h) && c !in ps
    ensures exists p :: p in TreeIds(s, ps, h) && !s.IsLeaf(p) && c in KidsOf(s, p)
    decreases h
  {
    var kids := Kids(s, ps);
    if c in kids {
      LevelOfKid(s, ps, c);
    } else {
      HasParent(s, kids, h - 1, c);
    }
  }

  // And only one.
  lemma {:induction false} OneParent(s: Store, ps: seq<Pgid>, h: nat, p: Pgid, q: Pgid, c: Pgid)
    requires Layered(s, ps, h) && Distinct(TreeIds(s, ps, h))
    requires p in TreeIds(s, ps, h) && !s.IsLeaf(p) && c in KidsOf(s, p)
    requires q in TreeIds(s, ps, h) && !s.IsLeaf(q) && c in KidsOf(s, q)
    ensures p == q
    decreases h
  {
    hide Entries;
    KidsBelow(s, ps, h, p, c);
    var kids := Kids(s, ps);
    DistinctConcat(ps, TreeIds(s, kids, h - 1));
    if p in ps && q in ps {
      KidsOfLevelDistinct(s, ps, h, p, q, c);
    } else if p in ps {
      KidOfLevel(s, ps, p, c);
      KidsBelow(s, kids, h - 1, q, c);
      DistinctConcat(kids, TreeIds(s, Kids(s, kids), h - 2));
    } else if q in ps {
      KidOfLevel(s, ps, q, c);
      KidsBelow(s, kids, h - 1, p, c);
      DistinctConcat(kids, TreeIds(s, Kids(s, kids), h - 2));
    } else {
      OneParent(s, kids, h - 1, p, q, c);
    }
  }

  lemma {:induction false} KidsOfLevelDistinct(s: Store, ps: seq<Pgid>, h: nat, p: Pgid, q: Pgid, c: Pgid)
    requires h > 0 && Distinct(TreeIds(s, ps, h)) && p in ps && q in ps && c in KidsOf(s, p) && c in KidsOf(s, q)
    ensures p == q
  {
    hide Entries;
    var kids := Kids(s, ps);
    DistinctConcat(ps, TreeIds(s, kids, h - 1));
    if h > 1 { DistinctConcat(kids, TreeIds(s, Kids(s, kids), h - 2)); }
    var i :| 0 <= i < |ps| && ps[i] == p;
    Around(s, ps, i);
    if p != q {
      DistinctConcat(Kids(s, ps[..i]) + KidsOf(s, p), Kids(s, ps[i + 1..]));
      DistinctConcat(Kids(s, ps[..i]), KidsOf(s, p));
      if q in ps[..i] { KidOfLevel(s, ps[..i], q, c); } else { KidOfLevel(s, ps[i + 1..], q, c); }
    }
  }

  // The parts of the level predicates, one step down.
  lemma LayeredBelow(s: Store, ps: seq<Pgid>, h: nat)
    requires Layered(s, ps, h)
    ensures h > 0 ==> Layered(s, Kids(s, ps), h - 1)
    ensures h == 0 ==> TreeIds(s, ps, h) == ps
    ensures forall p :: p in ps ==> (s.IsLeaf(p) <==> h == 0)
  {
  }

  lemma LayerAbove(s: Store, ps: seq<Pgid>, h: nat)
    requires forall p :: p in ps ==> (s.IsLeaf(p) <==> h == 0)
    requires h > 0 ==> Layered(s, Kids(s, ps), h - 1)
    ensures Layered(s, ps, h)
  {
  }

  lemma Deeper(s: Store, ps: seq<Pgid>, h: nat)
    ensures if h == 0 then Leaves(s, ps, h) == Entries(s, ps) && TreeIds(s, ps, h) == ps + []
      else Leaves(s, ps, h) == Leaves(s, Kids(s, ps), h - 1) && TreeIds(s, ps, h) == ps + TreeIds(s, Kids(s, ps), h - 1)
  {
  }

  // From s to t the inodes a up to b of a branch give way to others, whose nodes hold the same.
  datatype Rewire = Rewire(p: Pgid, a: nat, b: nat, with: seq<Inode>)
  {
    function Block(s: Store): seq<Inode>
      requires a <= b <= |s.Inodes(p)|
    {
      s.Inodes(p)[a..b]
    }

    function Result(s: Store): seq<Inode>
      requires a <= b <= |s.Inodes(p)|
    {
      s.Inodes(p)[..a] + with + s.Inodes(p)[b..]
    }
  }

  ghost predicate Rewires(s: Store, t: Store, r: Rewire) {
    && r.a < r.b <= |s.Inodes(r.p)| && !s.IsLeaf(r.p) && !t.IsLeaf(r.p)
    && t.Inodes(r.p) == r.Result(s)
    && Entries(t, Pgids(r.with)) == Entries(s, Pgids(r.Block(s)))
    && (forall q, k :: q in Pgids(r.with) && k in KidsOf(s, r.p) ==> t.IsLeaf(q) == s.IsLeaf(k))
    && (forall q :: q != r.p && q !in Pgids(r.Block(s)) && q !in Pgids(r.with) ==>
      t.Inodes(q) == s.Inodes(q) && t.IsLeaf(q) == s.IsLeaf(q))
  }

  // The new kids are not in the tree yet.
  ghost predicate KidsFit(s: Store, ids: seq<Pgid>, r: Rewire)
    requires r.a < r.b <= |s.Inodes(r.p)|
  {
    forall q :: q in Pgids(r.with) ==> q in Pgids(r.Block(s)) || q !in ids
  }

  ghost predicate Whole(s: Store, ps: seq<Pgid>, h: nat) {
    Layered(s, ps, h) && Distinct(TreeIds(s, ps, h))
  }

  lemma WholeBelow(s: Store, ps: seq<Pgid>, h: nat)
    requires Whole(s, ps, h) && h > 0
    ensures Whole(s, Kids(s, ps), h - 1)
    ensures forall q :: q in ps ==> q !in TreeIds(s, Kids(s, ps), h - 1)
    ensures forall q :: q in Kids(s, ps) ==> q in TreeIds(s, Kids(s, ps), h - 1)
  {
    hide Entries, Layered, Distinct;
    LayeredBelow(s, ps, h);
    DistinctConcat(ps, TreeIds(s, Kids(s, ps), h - 1));
  }

  lemma Untouched(s: Store, t: Store, r: Rewire, ids: seq<Pgid>, qs: seq<Pgid>)
    requires Rewires(s, t, r) && KidsFit(s, ids, r)
    requires forall q :: q in qs ==> q in ids && q != r.p && q !in Pgids(r.Block(s))
    ensures Agree(s, t, qs)
  {
  }

  lemma PgidsOfThree(a: seq<Inode>, b: seq<Inode>, c: seq<Inode>)
    ensures Pgids(a + b + c) == Pgids(a) + Pgids(b) + Pgids(c)
  {
  }

  lemma {:induction false} DistinctThree(a: seq<Pgid>, b: seq<Pgid>, c: seq<Pgid>)
    requires Distinct(a + b + c)
    ensures forall q :: q in a || q in c ==> q !in b
  {
    DistinctConcat(a + b, c);
    DistinctConcat(a, b);
  }

  // The inodes of the level, around the block.
  lemma {:induction false} RewireEntries(s: Store, t: Store, ps: seq<Pgid>, h: nat, r: Rewire, ids: seq<Pgid>)
    returns (left: seq<Inode>, right: seq<Inode>)
    requires Whole(s, ps, h) && Rewires(s, t, r) && KidsFit(s, ids, r) && r.p in ps
    requires forall q :: q in TreeIds(s, ps, h) ==> q in ids
    ensures h > 0
    ensures Entries(s, ps) == left + r.Block(s) + right && Entries(t, ps) == left + r.with + right
    ensures forall q :: q in ps && q != r.p ==> s.IsLeaf(q) == t.IsLeaf(q)
  {
    hide Entries, Layered, Distinct, TreeIds, Rewires, KidsFit;
    RewireShape(s, t, r);
    LayeredBelow(s, ps, h);
    Deeper(s, ps, h);
    WholeBelow(s, ps, h);
    forall q | q in KidsOf(s, r.p) ensures q !in ps { KidOfLevel(s, ps, r.p, q); }
    var i :| 0 <= i < |ps| && ps[i] == r.p;
    Around(s, ps, i);
    Around(t, ps, i);
    DistinctConcat(ps, TreeIds(s, Kids(s, ps), h - 1));
    DistinctThree(ps[..i], [r.p], ps[i + 1..]);
    assert r.p in [r.p];
    Untouched(s, t, r, ids, ps[..i]);
    Untouched(s, t, r, ids, ps[i + 1..]);
    EntriesFrame(s, t, ps[..i]);
    EntriesFrame(s, t, ps[i + 1..]);
    var inodes := s.Inodes(r.p);
    var ea, eb := Entries(s, ps[..i]), Entries(s, ps[i + 1..]);
    left, right := ea + inodes[..r.a], inodes[r.b..] + eb;
    FiveParts(ea, inodes[..r.a], r.Block(s), inodes[r.b..], eb);
    FiveParts(ea, inodes[..r.a], r.with, inodes[r.b..], eb);
    assert inodes == inodes[..r.a] + r.Block(s) + inodes[r.b..];
  }

  lemma FiveParts(a: seq<Inode>, b: seq<Inode>, c: seq<Inode>, d: seq<Inode>, e: seq<Inode>)
    ensures a + (b + c + d) + e == (a + b) + c + (d + e)
  {
  }

  lemma RewireShape(s: Store, t: Store, r: Rewire)
    requires Rewires(s, t, r)
    ensures r.a < r.b <= |s.Inodes(r.p)| && !s.IsLeaf(r.p) && !t.IsLeaf(r.p) && t.Inodes(r.p) == r.Result(s)
    ensures forall q :: q in Pgids(r.Block(s)) ==> q in KidsOf(s, r.p)
    ensures Entries(t, Pgids(r.with)) == Entries(s, Pgids(r.Block(s)))
  {
    hide Entries;
    assert s.Inodes(r.p) == s.Inodes(r.p)[..r.a] + r.Block(s) + s.Inodes(r.p)[r.b..];
    PgidsOfThree(s.Inodes(r.p)[..r.a], r.Block(s), s.Inodes(r.p)[r.b..]);
  }

  // The level below: other ids, the same inodes.
  lemma {:induction false} RewireKids(s: Store, t: Store, ps: seq<Pgid>, h: nat, r: Rewire, ids: seq<Pgid>, left: seq<Inode>, right: seq<Inode>)
    requires Whole(s, ps, h) && Rewires(s, t, r) && KidsFit(s, ids, r) && r.p in ps && h > 0
    requires forall q :: q in TreeIds(s, ps, h) ==> q in ids
    requires Entries(s, ps) == left + r.Block(s) + right && Entries(t, ps) == left + r.with + right
    ensures Agree(s, t, Pgids(left)) && Agree(s, t, Pgids(right))
    ensures Entries(t, Kids(t, ps)) == Entries(s, Kids(s, ps))
    ensures forall q :: q in Kids(t, ps) ==> (t.IsLeaf(q) <==> h == 1)
    ensures h > 1 ==> Agree(s, t, TreeIds(s, Kids(s, Kids(s, ps)), h - 2))
  {
    hide Entries, Layered, Distinct, TreeIds, Rewires, KidsFit;
    RewireShape(s, t, r);
    var kids := Kids(s, ps);
    LayeredBelow(s, ps, h);
    LayeredBelow(s, kids, h - 1);
    Deeper(s, ps, h);
    Deeper(s, kids, h - 1);
    WholeBelow(s, ps, h);
    var below := if h > 1 then TreeIds(s, Kids(s, kids), h - 2) else [];
    DistinctConcat(kids, below);
    var pl, pb, pr := Pgids(left), Pgids(r.Block(s)), Pgids(right);
    PgidsOfThree(left, r.Block(s), right);
    PgidsOfThree(left, r.with, right);
    DistinctThree(pl, pb, pr);
    Untouched(s, t, r, ids, pl);
    Untouched(s, t, r, ids, pr);
    Untouched(s, t, r, ids, below);
    EntriesOfThree(s, t, pl, pb, Pgids(r.with), pr);
    forall q | q in Kids(t, ps) ensures t.IsLeaf(q) <==> h == 1 {
      if q in Pgids(r.with) { RewireLeafness(s, t, r, q); KidOfLevel(s, ps, r.p, Pgids(r.Block(s))[0]); }
    }
  }

  lemma RewireLeafness(s: Store, t: Store, r: Rewire, q: Pgid)
    requires Rewires(s, t, r) && q in Pgids(r.with)
    ensures Pgids(r.Block(s))[0] in KidsOf(s, r.p) && t.IsLeaf(q) == s.IsLeaf(Pgids(r.Block(s))[0])
  {
    hide Entries;
    RewireShape(s, t, r);
    assert Pgids(r.Block(s))[0] in Pgids(r.Block(s));
  }

  lemma {:induction false} EntriesOfThree(s: Store, t: Store, a: seq<Pgid>, b: seq<Pgid>, c: seq<Pgid>, d: seq<Pgid>)
    requires Agree(s, t, a) && Agree(s, t, d) && Entries(t, c) == Entries(s, b)
    ensures Entries(t, a + c + d) == Entries(s, a + b + d)
  {
    hide Entries;
    EntriesConcat(s, a + b, d);
    EntriesConcat(s, a, b);
    EntriesConcat(t, a + c, d);
    EntriesConcat(t, a, c);
    EntriesFrame(s, t, a);
    EntriesFrame(s, t, d);
  }

  // A level without the branch holds none of the kids in question either: it stays as it is.
  lemma {:induction false} RewireElsewhere(s: Store, t: Store, ps: seq<Pgid>, h: nat, r: Rewire, ids: seq<Pgid>)
    requires Whole(s, ps, h) && Rewires(s, t, r) && KidsFit(s, ids, r) && r.p in TreeIds(s, ps, h) && r.p !in ps
    requires forall q :: q in TreeIds(s, ps, h) ==> q in ids
    ensures h > 0 && Agree(s, t, ps) && Kids(t, ps) == Kids(s, ps) && Entries(t, ps) == Entries(s, ps)
  {
    hide Entries, Layered, Rewires, KidsFit;
    RewireShape(s, t, r);
    Deeper(s, ps, h);
    WholeBelow(s, ps, h);
    forall q | q in ps ensures q in ids && q != r.p && q !in Pgids(r.Block(s)) {
      if q in KidsOf(s, r.p) { KidsBelow(s, ps, h, r.p, q); }
    }
    Untouched(s, t, r, ids, ps);
    EntriesFrame(s, t, ps);
  }

  lemma {:induction false} RewireAtLevel(s: Store, t: Store, ps: seq<Pgid>, h: nat, r: Rewire, ids: seq<Pgid>)
    returns (x: seq<Pgid>, y: seq<Pgid>)
    requires Whole(s, ps, h) && Rewires(s, t, r) && KidsFit(s, ids, r) && r.p in ps
    requires forall q :: q in TreeIds(s, ps, h) ==> q in ids
    ensures Leaves(t, ps, h) == Leaves(s, ps, h) && Layered(t, ps, h)
    ensures r.a < r.b <= |s.Inodes(r.p)|
    ensures TreeIds(s, ps, h) == x + Pgids(r.Block(s)) + y && TreeIds(t, ps, h) == x + Pgids(r.with) + y
  {
    hide Entries, Layered, Distinct, TreeIds, Leaves, Rewires, KidsFit, Agree;
    RewireShape(s, t, r);
    LayeredBelow(s, ps, h);
    var left, right := RewireEntries(s, t, ps, h, r, ids);
    RewireKids(s, t, ps, h, r, ids, left, right);
    var kids := Kids(s, ps);
    LayeredBelow(s, kids, h - 1);
    Deeper(s, ps, h);
    Deeper(t, ps, h);
    Deeper(s, kids, h - 1);
    Deeper(t, Kids(t, ps), h - 1);
    var below := if h > 1 then TreeIds(s, Kids(s, kids), h - 2) else [];
    if h > 1 { LevelFrame(s, t, Kids(s, kids), h - 2); }
    LayerAbove(t, Kids(t, ps), h - 1);
    LayerAbove(t, ps, h);
    PgidsOfThree(left, r.Block(s), right);
    PgidsOfThree(left, r.with, right);
    x, y := ps + Pgids(left), Pgids(right) + below;
    Shuffle(ps, Pgids(left), Pgids(r.Block(s)), Pgids(right), below);
    Shuffle(ps, Pgids(left), Pgids(r.with), Pgids(right), below);
  }

  lemma Shuffle(a: seq<Pgid>, b: seq<Pgid>, c: seq<Pgid>, d: seq<Pgid>, e: seq<Pgid>)
    ensures a + ((b + c + d) + e) == (a + b) + c + (d + e)
  {
  }

  // A rewiring keeps the leaf sequence and the levels; only the ids of the block are exchanged.
  lemma {:induction false} RewireKeeps(s: Store, t: Store, ps: seq<Pgid>, h: nat, r: Rewire, ids: seq<Pgid>)
    returns (x: seq<Pgid>, y: seq<Pgid>)
    requires Whole(s, ps, h) && Rewires(s, t, r) && KidsFit(s, ids, r) && r.p in TreeIds(s, ps, h)
    requires forall q :: q in TreeIds(s, ps, h) ==> q in ids
    ensures Leaves(t, ps, h) == Leaves(s, ps, h) && Layered(t, ps, h)
    ensures r.a < r.b <= |s.Inodes(r.p)|
    ensures TreeIds(s, ps, h) == x + Pgids(r.Block(s)) + y && TreeIds(t, ps, h) == x + Pgids(r.with) + y
    decreases h
  {
    hide Entries, Rewires, Distinct, KidsFit, Layered, TreeIds, Leaves, Agree;
    if r.p in ps {
      x, y := RewireAtLevel(s, t, ps, h, r, ids);
    } else {
      RewireElsewhere(s, t, ps, h, r, ids);
      RewireShape(s, t, r);
      var kids := Kids(s, ps);
      LayeredBelow(s, ps, h);
      Deeper(s, ps, h);
      Deeper(t, ps, h);
      WholeBelow(s, ps, h);
      var x', y' := RewireKeeps(s, t, kids, h - 1, r, ids);
      SameLeafness(s, t, ps);
      LayerAbove(t, ps, h);
      x, y := ps + x', y';
      assert ps + (x' + Pgids(r.Block(s)) + y') == x + Pgids(r.Block(s)) + y;
      assert ps + (x' + Pgids(r.with) + y') == x + Pgids(r.with) + y;
    }
  }

  lemma SameLeafness(s: Store, t: Store, ps: seq<Pgid>)
    requires Agree(s, t, ps)
    ensures forall p :: p in ps ==> s.IsLeaf(p) == t.IsLeaf(p)
  {
  }

  // From s to t the root took over what its only child held.
  ghost predicate Collapses(s: Store, t: Store, root: Pgid, child: Pgid) {
    && KidsOf(s, root) == [child]
    && t.Inodes(root) == s.Inodes(child) && t.IsLeaf(root) == s.IsLeaf(child)
    && forall q :: q != root && q != child ==> t.Inodes(q) == s.Inodes(q) && t.IsLeaf(q) == s.IsLeaf(q)
  }

  lemma {:induction false} CollapseKeeps(s: Store, t: Store, root: Pgid, h: nat, child: Pgid)
    requires Layered(s, [root], h) && Distinct(TreeIds(s, [root], h)) && !s.IsLeaf(root) && Collapses(s, t, root, child)
    ensures h > 0 && Layered(t, [root], h - 1)
    ensures Leaves(t, [root], h - 1) == Leaves(s, [root], h)
    ensures TreeIds(s, [root], h) == [root] + [child] + TreeIds(t, [root], h - 1)[1..]
    ensures TreeIds(t, [root], h - 1)[..1] == [root]
  {
    hide Layered, Entries, TreeIds, Leaves, Distinct;
    LayeredBelow(s, [root], h);
    EntriesOfOne(s, root);
    EntriesOfOne(s, child);
    EntriesOfOne(t, root);
    Deeper(s, [root], h);
    Deeper(s, [child], h - 1);
    Deeper(t, [root], h - 1);
    LayeredBelow(s, [child], h - 1);
    var below := Kids(s, [child]);
    if h > 1 {
      assert TreeIds(s, [root], h) == [root] + [child] + TreeIds(s, below, h - 2);
      DistinctConcat([root] + [child], TreeIds(s, below, h - 2));
      assert root in [root] + [child] && child in [root] + [child];
      LevelFrame(s, t, below, h - 2);
    }
    LayerAbove(t, [root], h - 1);
  }

  // A branch is not its own kid, and its kids differ from each other.
  lemma {:induction false} KidsDiffer(s: Store, ps: seq<Pgid>, h: nat, p: Pgid)
    requires Layered(s, ps, h) && Distinct(TreeIds(s, ps, h)) && p in TreeIds(s, ps, h) && !s.IsLeaf(p)
    ensures p !in KidsOf(s, p) && Distinct(KidsOf(s, p))
    decreases h
  {
    hide Entries, Layered, Distinct;
    LayeredBelow(s, ps, h);
    Deeper(s, ps, h);
    var kids := Kids(s, ps);
    DistinctConcat(ps, TreeIds(s, kids, h - 1));
    if p in ps {
      Deeper(s, kids, h - 1);
      DistinctConcat(kids, if h > 1 then TreeIds(s, Kids(s, kids), h - 2) else []);
      var i :| 0 <= i < |ps| && ps[i] == p;
      Around(s, ps, i);
      DistinctConcat(Kids(s, ps[..i]) + KidsOf(s, p), Kids(s, ps[i + 1..]));
      DistinctConcat(Kids(s, ps[..i]), KidsOf(s, p));
      if p in KidsOf(s, p) { KidsBelow(s, ps, h, p, p); }
    } else {
      KidsDiffer(s, kids, h - 1, p);
    }
  }
}
