// The span-indexed freelist backend of environment/bbolt/internal/freelist/hashmap.go.
// Three maps describe one set of free pages; everything is stated about that set.
module HashMapFreelist {
  import opened PageIds

  type Spans = map<Pgid, nat>

  // The page ids that a start -> size map describes.
  ghost function Covered(f: Spans): set<Pgid> {
    set s, p | s in f && p in Interval(s, f[s]) :: p
  }

  // The last page of a span.
  function End(f: Spans, s: Pgid): nat
    requires s in f
  {
    if f[s] > 0 then s + f[s] - 1 else s
  }

  // Spans are non-empty, avoid page 0, and no two of them touch: each is maximal.
  ghost predicate Separated(f: Spans) {
    && (forall s :: s in f ==> s > 0 && f[s] > 0)
    && (forall s, t :: s in f && t in f && s < t ==> s + f[s] < t)
  }

  // A new span fits when it touches none of the present ones.
  ghost predicate Fits(f: Spans, start: Pgid, size: nat) {
    && start > 0 && size > 0
    && (forall s :: s in f ==> s + f[s] < start || start + size < s)
  }

  // The backward map holds exactly the last page of every span.
  ghost predicate BackwardAgrees(f: Spans, b: Spans) {
    && (forall s :: s in f ==> End(f, s) in b && b[End(f, s)] == f[s])
    && (forall e :: e in b ==> EndsSpan(f, e))
  }

  ghost predicate EndsSpan(f: Spans, e: nat) {
    exists s :: s in f && End(f, s) == e
  }

  // The size index holds exactly the spans, grouped by size, with no empty group.
  ghost predicate SizesAgree(f: Spans, m: map<nat, set<Pgid>>) {
    && (forall s :: s in f ==> f[s] in m && s in m[f[s]])
    && (forall n :: n in m ==> m[n] != {})
    && (forall n, s :: n in m && s in m[n] ==> s in f && f[s] == n)
  }

  // The three maps and the counter describe one set of disjoint, maximal spans.
  ghost predicate Consistent(f: Spans, b: Spans, m: map<nat, set<Pgid>>, count: nat) {
    && Separated(f)
    && BackwardAgrees(f, b)
    && SizesAgree(f, m)
    && count == |Covered(f)|
  }

  lemma CoveredBy(f: Spans, s: Pgid, p: Pgid)
    requires s in f && s <= p < s + f[s]
    ensures p in Covered(f)
  {
    assert p in Interval(s, f[s]);
  }

  lemma CoveredIs(f: Spans, p: Pgid)
    ensures p in Covered(f) <==> exists s :: s in f && s <= p < s + f[s]
  {
    if s :| s in f && s <= p < s + f[s] { CoveredBy(f, s, p); }
  }

  lemma CoveredGrows(f: Spans, start: Pgid, size: nat)
    requires start !in f
    ensures Covered(f[start := size]) == Covered(f) + Interval(start, size)
  {
    hide Interval;
    var g := f[start := size];
    forall p ensures p in Covered(g) <==> p in Covered(f) + Interval(start, size) {
      if p in Covered(f) {
        var s :| s in f && p in Interval(s, f[s]);
        CoveredBy(g, s, p);
      }
      if p in Interval(start, size) { CoveredBy(g, start, p); }
    }
  }

  lemma CoveredApart(f: Spans, start: Pgid, size: nat)
    requires Fits(f, start, size)
    ensures Covered(f) !! Interval(start, size)
  {
    hide Interval;
    forall p | p in Covered(f) ensures p !in Interval(start, size) {
      var s :| s in f && p in Interval(s, f[s]);
    }
  }

  lemma CoveredAdd(f: Spans, start: Pgid, size: nat)
    requires Separated(f) && Fits(f, start, size)
    ensures Separated(f[start := size]) && start !in f
    ensures Covered(f[start := size]) == Covered(f) + Interval(start, size)
    ensures |Covered(f[start := size])| == |Covered(f)| + size
  {
    hide Interval, Covered;
    CoveredGrows(f, start, size);
    CoveredApart(f, start, size);
    IntervalSize(start, size);
  }

  lemma CoveredDel(f: Spans, start: Pgid)
    requires Separated(f) && start in f
    ensures Separated(f - {start}) && Fits(f - {start}, start, f[start])
    ensures Covered(f - {start}) == Covered(f) - Interval(start, f[start])
    ensures Interval(start, f[start]) <= Covered(f)
    ensures |Covered(f - {start})| == |Covered(f)| - f[start]
  {
    hide Interval, Covered;
    var g := f - {start};
    assert g[start := f[start]] == f;
    CoveredAdd(g, start, f[start]);
    CoveredApart(g, start, f[start]);
  }

  // Maximality: contiguous free ids never straddle two spans.
  lemma RunInOneSpan(f: Spans, p: Pgid, n: nat)
    requires Separated(f) && n > 0 && RunAt(Covered(f), p, n)
    ensures exists s :: s in f && s <= p && p + n <= s + f[s]
  {
    hide Interval, Covered;
    assert p in Interval(p, n);
    CoveredIs(f, p);
    var s :| s in f && s <= p < s + f[s];
    var q := s + f[s];
    assert q < p + n ==> q in Interval(p, n);
    CoveredIs(f, q);
  }

  lemma EndsApart(f: Spans, s: Pgid, t: Pgid)
    requires Separated(f) && s in f && t in f && s != t
    ensures End(f, s) != End(f, t)
  {
    if s < t { assert s + f[s] < t; } else { assert t + f[t] < s; }
  }

  lemma FitsApart(f: Spans, start: Pgid, size: nat, s: Pgid)
    requires Separated(f) && Fits(f, start, size) && s in f
    ensures s != start && End(f, s) != start + size - 1
  {
  }

  lemma BackwardAdd(f: Spans, b: Spans, start: Pgid, size: nat)
    requires Separated(f) && Fits(f, start, size) && BackwardAgrees(f, b)
    ensures BackwardAgrees(f[start := size], b[start + size - 1 := size])
  {
    hide Separated;
    var g, c, end := f[start := size], b[start + size - 1 := size], start + size - 1;
    assert End(g, start) == end;
    hide Fits;
    forall s | s in f ensures s != start && End(g, s) == End(f, s) != end { FitsApart(f, start, size, s); }
    forall e | e in b ensures EndsSpan(g, e) {
      var s :| s in f && End(f, s) == e;
      assert End(g, s) == e;
    }
  }

  lemma BackwardDel(f: Spans, b: Spans, start: Pgid)
    requires Separated(f) && start in f && BackwardAgrees(f, b)
    ensures BackwardAgrees(f - {start}, b - {End(f, start)})
  {
    hide Separated;
    var g, c := f - {start}, b - {End(f, start)};
    forall s | s in g ensures End(g, s) == End(f, s) != End(f, start) { EndsApart(f, s, start); }
    forall e | e in c ensures EndsSpan(g, e) {
      var s :| s in f && End(f, s) == e;
      assert End(g, s) == e;
    }
  }

  // The size index after a span is added or dropped, as addSpan and delSpan write it.
  function SizesAdd(m: map<nat, set<Pgid>>, start: Pgid, size: nat): map<nat, set<Pgid>> {
    m[size := (if size in m then m[size] else {}) + {start}]
  }

  function SizesDel(m: map<nat, set<Pgid>>, start: Pgid, size: nat): map<nat, set<Pgid>>
    requires size in m
  {
    if |m[size] - {start}| == 0 then m - {size} else m[size := m[size] - {start}]
  }

  lemma SizesAddKeeps(f: Spans, m: map<nat, set<Pgid>>, start: Pgid, size: nat)
    requires SizesAgree(f, m) && start !in f
    ensures SizesAgree(f[start := size], SizesAdd(m, start, size))
  {
  }

  lemma AddKeeps(f: Spans, b: Spans, m: map<nat, set<Pgid>>, count: nat, start: Pgid, size: nat)
    requires Consistent(f, b, m, count) && Fits(f, start, size)
    ensures Consistent(f[start := size], b[start + size - 1 := size], SizesAdd(m, start, size), count + size)
  {
    hide Covered, BackwardAgrees, SizesAgree, SizesAdd;
    CoveredAdd(f, start, size);
    BackwardAdd(f, b, start, size);
    SizesAddKeeps(f, m, start, size);
  }

  lemma SizesDelKeeps(f: Spans, m: map<nat, set<Pgid>>, start: Pgid)
    requires SizesAgree(f, m) && start in f
    ensures f[start] in m && SizesAgree(f - {start}, SizesDel(m, start, f[start]))
  {
  }

  lemma DelKeeps(f: Spans, b: Spans, m: map<nat, set<Pgid>>, count: nat, start: Pgid)
    requires Consistent(f, b, m, count) && start in f
    ensures 0 < f[start] <= count && f[start] in m
    ensures Consistent(f - {start}, b - {End(f, start)}, SizesDel(m, start, f[start]), count - f[start])
  {
    hide Covered, BackwardAgrees, SizesAgree, SizesDel;
    CoveredDel(f, start);
    BackwardDel(f, b, start);
    SizesDelKeeps(f, m, start);
  }

  lemma RunIn(free: set<Pgid>, p: Pgid, n: nat)
    requires Interval(p, n) <= free
    ensures RunAt(free, p, n)
  {
  }

  lemma NoRun(f: Spans, n: nat)
    requires Separated(f) && n > 0 && (forall s :: s in f ==> f[s] < n)
    ensures !exists p :: RunAt(Covered(f), p, n)
  {
    forall p | RunAt(Covered(f), p, n) ensures false {
      RunInOneSpan(f, p, n);
    }
  }

  lemma TailBack(free: set<Pgid>, pid: Pgid, size: nat, n: nat)
    requires n < size && Interval(pid, size) <= free
    ensures free - Interval(pid, size) + Interval(pid + n, size - n) == free - Interval(pid, n)
    ensures RunAt(free, pid, n)
  {
    hide Interval;
    forall p ensures p in Interval(pid, size) <==> p in Interval(pid, n) || p in Interval(pid + n, size - n) {}
  }

  lemma CarvedSpan(f: Spans, pid: Pgid, n: nat)
    requires Separated(f) && pid in f && 0 < n < f[pid]
    ensures pid > 0 && RunAt(Covered(f), pid, n)
    ensures Separated(f - {pid}) && Fits(f - {pid}, pid + n, f[pid] - n)
    ensures Covered((f - {pid})[pid + n := f[pid] - n]) == Covered(f) - Interval(pid, n)
  {
    hide Covered, Interval;
    CoveredDel(f, pid);
    CoveredAdd(f - {pid}, pid + n, f[pid] - n);
    TailBack(Covered(f), pid, f[pid], n);
  }

  lemma IntervalJoin(start: nat, m: nat, n: nat)
    ensures Interval(start, m + n) == Interval(start, m) + Interval(start + m, n)
  {
  }

  // The sizes of the free spans on either side of the block [start, end]; 0 if there is none.
  ghost function Before(b: Spans, start: Pgid): nat
    requires 0 < start
  {
    if start - 1 in b then b[start - 1] else 0
  }

  ghost function After(f: Spans, end: Pgid): nat {
    if end + 1 in f then f[end + 1] else 0
  }

  lemma DropSpan(f: Spans, s: Pgid, n: nat)
    requires Separated(f) && n == (if s in f then f[s] else 0)
    ensures Separated(f - {s}) && Covered(f - {s}) + Interval(s, n) == Covered(f)
  {
    hide Covered, Interval;
    if s in f { CoveredDel(f, s); } else { assert f - {s} == f; IntervalEmpty(s); }
  }

  // Nothing free overlaps the block, so a neighbouring span either touches it or stays clear.
  lemma ClearOfBlock(f: Spans, start: Pgid, end: Pgid)
    requires start <= end && Interval(start, end - start + 1) !! Covered(f)
    ensures forall s :: s in f && f[s] > 0 ==> s + f[s] <= start || end < s
  {
    hide Covered, Interval;
    forall s | s in f && f[s] > 0 ensures s + f[s] <= start || end < s {
      var p := if s < start then start else s;
      CoveredIs(f, p);
      assert p in Interval(start, end - start + 1) <==> start <= p <= end;
    }
  }

  lemma NotEmptySpan(f: Spans, s: Pgid)
    requires Separated(f) && s in f
    ensures s > 0 && f[s] > 0
  {
  }

  lemma TouchingPrev(f: Spans, b: Spans, start: Pgid)
    requires Separated(f) && BackwardAgrees(f, b) && 1 < start && start !in f
    ensures var pre := Before(b, start);
      && pre < start
      && (start - 1 in b <==> start - pre in f) && (start - 1 in b ==> pre > 0 && f[start - pre] == pre)
      && (forall s :: s in f && s + f[s] == start ==> s == start - pre)
  {
    hide Separated;
    if start - 1 in b {
      assert EndsSpan(f, start - 1);
      var s :| s in f && End(f, s) == start - 1;
      NotEmptySpan(f, s);
    }
    forall s | s in f && s + f[s] == start ensures s == start - Before(b, start) {
      NotEmptySpan(f, s);
      assert End(f, s) == start - 1;
    }
    if start - Before(b, start) in f { NotEmptySpan(f, start - Before(b, start)); }
  }

  lemma JoinedFits(f: Spans, start: Pgid, end: Pgid, pre: nat)
    requires Separated(f) && pre < start <= end
    requires forall s :: s in f ==> s + f[s] <= start || end < s
    requires start - pre in f ==> f[start - pre] == pre
    requires forall s :: s in f && s + f[s] == start ==> s == start - pre
    requires start - pre !in f ==> pre == 0
    ensures Fits(f - {start - pre} - {end + 1}, start - pre, pre + (end - start + 1) + After(f, end))
  {
    var g, left := f - {start - pre} - {end + 1}, start - pre;
    var right := end + 1 + After(f, end);
    forall s | s in g ensures s + f[s] < left || right < s {
      assert s in f && s != left && s != end + 1;
      if end < s {
        assert end + 1 in f ==> end + 1 + f[end + 1] < s;
      } else {
        assert s + f[s] < start;
      }
    }
  }

  // What mergeWithExistingSpan finds around the block, and that the joined span fits.
  lemma Neighbours(f: Spans, b: Spans, start: Pgid, end: Pgid)
    requires Separated(f) && BackwardAgrees(f, b)
    requires 1 < start <= end && Interval(start, end - start + 1) !! Covered(f)
    ensures var pre := Before(b, start);
      && pre < start
      && (start - 1 in b <==> start - pre in f) && (start - 1 in b ==> pre > 0 && f[start - pre] == pre)
      && (end + 1 in f ==> f[end + 1] > 0)
      && Fits(f - {start - pre} - {end + 1}, start - pre, pre + (end - start + 1) + After(f, end))
  {
    hide Covered, Interval, BackwardAgrees, Fits, After;
    ClearOfBlock(f, start, end);
    assert start !in f;
    TouchingPrev(f, b, start);
    JoinedFits(f, start, end, Before(b, start));
  }

  lemma JoinedCovers(f: Spans, start: Pgid, end: Pgid, pre: nat)
    requires Separated(f) && pre < start <= end
    requires pre == if start - pre in f then f[start - pre] else 0
    requires Fits(f - {start - pre} - {end + 1}, start - pre, pre + (end - start + 1) + After(f, end))
    ensures Covered((f - {start - pre} - {end + 1})[start - pre := pre + (end - start + 1) + After(f, end)])
         == Covered(f) + Interval(start, end - start + 1)
  {
    hide Covered, Interval, Fits, Separated;
    var post, size := After(f, end), end - start + 1;
    var f1 := f - {start - pre};
    var g := f1 - {end + 1};
    DropSpan(f, start - pre, pre);
    DropSpan(f1, end + 1, post);
    CoveredAdd(g, start - pre, pre + size + post);
    JoinedUnion(Covered(f), Covered(f1), Covered(g), start, pre, size, post);
  }

  lemma JoinedUnion(c: set<Pgid>, c1: set<Pgid>, c2: set<Pgid>, start: nat, pre: nat, size: nat, post: nat)
    requires pre <= start
    requires c1 + Interval(start - pre, pre) == c && c2 + Interval(start + size, post) == c1
    ensures c2 + Interval(start - pre, pre + size + post) == c + Interval(start, size)
  {
    hide Interval;
    IntervalJoin(start - pre, pre, size);
    IntervalJoin(start - pre, pre + size, post);
  }

  lemma IntervalEmpty(start: nat)
    ensures Interval(start, 0) == {}
  {
  }

  lemma NoIds(ids: seq<Pgid>)
    requires |ids| == 0
    ensures Ids(ids) == {}
  {
  }

  // Reading ids in order: free is what earlier runs gave, [start, start + size) the current run.
  ghost predicate Reading(ids: seq<Pgid>, i: nat, free: set<Pgid>, start: Pgid, size: nat)
    requires i <= |ids|
  {
    && 0 < i && 0 < start && 0 < size && start + size == ids[i - 1] + 1
    && free !! Interval(start, size)
    && free + Interval(start, size) == Ids(ids[..i])
  }

  lemma ReadFirst(ids: seq<Pgid>, free: set<Pgid>)
    requires ids != [] && ids[0] > 0 && free == {}
    ensures Reading(ids, 1, free, ids[0], 1)
  {
    assert Interval(ids[0], 1) == {ids[0]};
  }

  lemma ReadNext(ids: seq<Pgid>, i: nat, free: set<Pgid>, start: Pgid, size: nat)
    requires StrictlySorted(ids) && 0 < i < |ids| && Reading(ids, i, free, start, size)
    ensures ids[i - 1] < ids[i] && start + size == ids[i - 1] + 1
    ensures ids[i] == start + size ==> Reading(ids, i + 1, free, start, size + 1)
    ensures Reading(ids, i + 1, free + Interval(start, size), ids[i], 1)
  {
    var before, after := Ids(ids[..i]), Ids(ids[..i + 1]);
    assert after == before + {ids[i]};
    assert ids[i] !in before;
    assert Interval(ids[i], 1) == {ids[i]};
    assert Interval(start, size + 1) == Interval(start, size) + {start + size};
  }

  lemma RunIsNew(ids: seq<Pgid>, i: nat, was: set<Pgid>, done: set<Pgid>, start: Pgid, size: nat)
    requires i <= |ids| && Reading(ids, i, done, start, size) && (forall id :: id in ids ==> id !in was)
    ensures Interval(start, size) !! was + done
  {
    forall p | p in Interval(start, size) ensures p !in was + done {
      assert p in Ids(ids[..i]);
    }
  }

  lemma ReadAll(ids: seq<Pgid>, free: set<Pgid>, start: Pgid, size: nat)
    requires Reading(ids, |ids|, free, start, size)
    ensures free + Interval(start, size) == Ids(ids) && start > 0 && size > 0
  {
    assert ids[..|ids|] == ids;
  }

  // Every span ends before the page just below the bound.
  ghost predicate EndBelow(f: Spans, bound: Pgid) {
    forall s :: s in f ==> s + f[s] < bound
  }

  lemma NothingBelow(bound: Pgid)
    ensures EndBelow(map[], bound)
  {
  }

  lemma CoveredNothing()
    ensures Covered(map[]) == {}
  {
  }

  // The inner loop of freePageIds.
  method AppendRun(m: seq<Pgid>, start: Pgid, size: nat) returns (r: seq<Pgid>)
    requires StrictlySorted(m) && forall p :: p in m ==> p < start
    ensures StrictlySorted(r) && Ids(r) == Ids(m) + Interval(start, size)
    ensures forall p :: p in r ==> p < start + size
  {
    r := m;
    for i := 0 to size
      invariant StrictlySorted(r) && forall p :: p in r <==> p in m || start <= p < start + i
    {
      assert forall k :: 0 <= k < |r| ==> r[k] in r;
      r := r + [start + i];
    }
  }

  // The first i spans.
  ghost function FirstSpans(f: Spans, keys: seq<Pgid>, i: nat): Spans
    requires i <= |keys|
  {
    map s | s in f && s in keys[..i] :: f[s]
  }

  // m lists, in order, the pages of the first i spans.
  ghost predicate Listed(f: Spans, keys: seq<Pgid>, i: nat, m: seq<Pgid>)
    requires i <= |keys|
  {
    && StrictlySorted(m) && Ids(m) == Covered(FirstSpans(f, keys, i))
    && (i < |keys| ==> forall p :: p in m ==> p < keys[i])
  }

  lemma ListNone(f: Spans, keys: seq<Pgid>)
    ensures Listed(f, keys, 0, [])
  {
    assert FirstSpans(f, keys, 0) == map[];
    CoveredNothing();
  }

  lemma ListNext(f: Spans, keys: seq<Pgid>, i: nat, m: seq<Pgid>)
    requires Separated(f) && StrictlySorted(keys) && Ids(keys) == f.Keys && i < |keys| && Listed(f, keys, i, m)
    ensures keys[i] in f && StrictlySorted(m) && forall p :: p in m ==> p < keys[i]
    ensures forall r :: (StrictlySorted(r) && Ids(r) == Ids(m) + Interval(keys[i], f[keys[i]]) &&
                         (forall p :: p in r ==> p < keys[i] + f[keys[i]]))
                        ==> Listed(f, keys, i + 1, r)
  {
    hide Covered, Interval;
    assert keys[i] in Ids(keys);
    var g := FirstSpans(f, keys, i);
    assert keys[i] !in g;
    CoveredGrows(g, keys[i], f[keys[i]]);
    assert FirstSpans(f, keys, i + 1) == g[keys[i] := f[keys[i]]];
    assert i + 1 < |keys| ==> keys[i + 1] in Ids(keys);
  }

  lemma ListAll(f: Spans, keys: seq<Pgid>, m: seq<Pgid>)
    requires Ids(keys) == f.Keys && Listed(f, keys, |keys|, m)
    ensures StrictlySorted(m) && Ids(m) == Covered(f)
  {
    assert keys[..|keys|] == keys;
    assert FirstSpans(f, keys, |keys|) == f by {
      forall s | s in f ensures s in keys { assert s in Ids(keys); }
    }
  }

  class HashMap {
    var freePagesCount: nat              // count of free pages
    var freemaps: map<nat, set<Pgid>>    // span size -> starts of the spans of that size
    var forwardMap: Spans                // start -> size
    var backwardMap: Spans               // end -> size

    ghost predicate Valid()
      reads this
    {
      Consistent(forwardMap, backwardMap, freemaps, freePagesCount)
    }

    ghost function Free(): set<Pgid>
      reads this
    {
      Covered(forwardMap)
    }

    constructor ()
      ensures Valid() && Free() == {}
    {
      freePagesCount, freemaps, forwardMap, backwardMap := 0, map[], map[], map[];
    }

    method AddSpan(start: Pgid, size: nat)
      requires Valid() && Fits(forwardMap, start, size)
      modifies this
      ensures Valid() && forwardMap == old(forwardMap)[start := size]
    {
      hide Consistent;
      AddKeeps(forwardMap, backwardMap, freemaps, freePagesCount, start, size);
      backwardMap := backwardMap[start + size - 1 := size];
      forwardMap := forwardMap[start := size];
      if size !in freemaps {
        freemaps := freemaps[size := {}];
      }
      freemaps := freemaps[size := freemaps[size] + {start}];
      freePagesCount := freePagesCount + size;
      assert freemaps == SizesAdd(old(freemaps), start, size);
    }

    method DelSpan(start: Pgid, size: nat)
      requires Valid() && start in forwardMap && forwardMap[start] == size > 0
      modifies this
      ensures Valid() && forwardMap == old(forwardMap) - {start}
    {
      hide Consistent;
      DelKeeps(forwardMap, backwardMap, freemaps, freePagesCount, start);
      forwardMap := forwardMap - {start};
      backwardMap := backwardMap - {start + (size - 1)};
      freemaps := freemaps[size := freemaps[size] - {start}];
      if |freemaps[size]| == 0 {
        freemaps := freemaps - {size};
      }
      freePagesCount := freePagesCount - size;
      assert freemaps == SizesDel(old(freemaps), start, size);
    }

    // The span part of Allocate: the caller records the allocating transaction.
    method Allocate(n: nat) returns (pid: Pgid)
      requires Valid()
      modifies this
      ensures Valid() && Allocated(old(Free()), n, pid, Free())
    {
      hide Covered, BackwardAgrees, Interval, RunAt;
      if n == 0 { return 0; }
      if n in freemaps {
        pid :| pid in freemaps[n];
        CoveredDel(forwardMap, pid);
        assert RunAt(Free(), pid, n) by { RunIn(Free(), pid, n); }
        DelSpan(pid, n);
        return;
      }
      var sizes := freemaps.Keys;
      while sizes != {}
        invariant Valid() && unchanged(this)
        invariant forall k :: k in sizes ==> k in freemaps
        invariant forall k :: k in freemaps && k !in sizes ==> k < n
      {
        var size :| size in sizes;
        sizes := sizes - {size};
        if size < n { continue; }
        pid :| pid in freemaps[size];
        CarveFront(pid, size, n);
        return;
      }
      NoRun(forwardMap, n);
      return 0;
    }

    // The larger-span branch of Allocate: the span goes, its tail comes back.
    method CarveFront(pid: Pgid, size: nat, n: nat)
      requires Valid() && Separated(forwardMap) && pid in forwardMap && forwardMap[pid] == size && 0 < n < size
      modifies this
      ensures Valid() && pid > 0 && RunAt(old(Free()), pid, n)
      ensures Free() == old(Free()) - Interval(pid, n)
    {
      hide Consistent, Covered, Interval, Separated, Fits;
      CarvedSpan(forwardMap, pid, n);
      DelSpan(pid, size);
      var remain := size - n;
      AddSpan(pid + n, remain);
    }

    // Merges the free block [start, end] with the spans on either side of it.
    method MergeWithExistingSpan(start: Pgid, end: Pgid)
      requires Valid() && 1 < start <= end
      requires Interval(start, end - start + 1) !! Free()
      modifies this
      ensures Valid() && Free() == old(Free()) + Interval(start, end - start + 1)
    {
      hide Covered, Interval, Fits, Separated, BackwardAgrees, SizesAgree, End;
      Neighbours(forwardMap, backwardMap, start, end);
      JoinedCovers(forwardMap, start, end, Before(backwardMap, start));
      var prev, next := start - 1, end + 1;
      var mergeWithPrev, mergeWithNext := prev in backwardMap, next in forwardMap;
      var preSize := if mergeWithPrev then backwardMap[prev] else 0;
      var nextSize := if mergeWithNext then forwardMap[next] else 0;
      var newStart, newSize := start, end - start + 1;
      if mergeWithPrev {
        var prevStart := prev + 1 - preSize;
        DelSpan(prevStart, preSize);
        newStart := newStart - preSize;
        newSize := newSize + preSize;
      }
      if mergeWithNext {
        DelSpan(next, nextSize);
        newSize := newSize + nextSize;
      }
      assert forwardMap == old(forwardMap) - {newStart} - {next};
      AddSpan(newStart, newSize);
    }

    method MergeSpans(ids: seq<Pgid>)
      requires Valid() && Distinct(ids)
      requires forall id :: id in ids ==> id > 1 && id !in Free()
      modifies this
      ensures Valid() && Free() == old(Free()) + Ids(ids)
    {
      hide *;
      if |ids| == 0 {
        NoIds(ids);
        return;
      }
      var sorted := SortDistinct(ids);
      var start, end := sorted[0], sorted[0];
      ghost var was, done: set<Pgid> := Free(), {};
      assert sorted[0] in ids;
      ReadFirst(sorted, done);
      for i := 1 to |sorted|
        invariant Valid() && 1 < start <= end
        invariant Reading(sorted, i, done, start, end - start + 1)
        invariant Free() == was + done
      {
        var id := sorted[i];
        assert id in ids;
        ReadNext(sorted, i, done, start, end - start + 1);
        if id == end + 1 {
          end := id;
          continue;
        }
        RunIsNew(sorted, i, was, done, start, end - start + 1);
        MergeWithExistingSpan(start, end);
        done := done + Interval(start, end - start + 1);
        start, end := id, id;
      }
      RunIsNew(sorted, |sorted|, was, done, start, end - start + 1);
      MergeWithExistingSpan(start, end);
      ReadAll(sorted, done, start, end - start + 1);
    }

    // Rebuilds the index from the ids of the free pages, in order.
    method Init(pgids: seq<Pgid>)
      requires StrictlySorted(pgids) && (pgids != [] ==> pgids[0] > 0)
      modifies this
      ensures Valid() && Free() == Ids(pgids)
    {
      freePagesCount, freemaps, forwardMap, backwardMap := 0, map[], map[], map[];
      assert Free() == {};
      hide *;
      if |pgids| == 0 {
        NoIds(pgids);
        return;
      }
      var size, start := 1, pgids[0];
      ReadFirst(pgids, Free());
      NothingBelow(start);
      for i := 1 to |pgids|
        invariant Valid() && EndBelow(forwardMap, start)
        invariant Reading(pgids, i, Free(), start, size)
      {
        ReadNext(pgids, i, Free(), start, size);
        if pgids[i] == pgids[i - 1] + 1 {
          size := size + 1;
        } else {
          AddLastSpan(start, size, pgids[i]);
          size := 1;
          start := pgids[i];
        }
      }
      ReadAll(pgids, Free(), start, size);
      if size != 0 && start != 0 {
        AddLastSpan(start, size, start + size + 1);
      }
    }

    // addSpan above all spans so far, and below what comes next.
    method AddLastSpan(start: Pgid, size: nat, ghost next: Pgid)
      requires Valid() && start > 0 && size > 0 && EndBelow(forwardMap, start) && start + size < next
      modifies this
      ensures Valid() && EndBelow(forwardMap, next)
      ensures Free() == old(Free()) + Interval(start, size)
    {
      hide Covered, Interval, BackwardAgrees, SizesAgree;
      CoveredAdd(forwardMap, start, size);
      AddSpan(start, size);
    }

    // All free page ids, in ascending order.
    method FreePageIds() returns (m: seq<Pgid>)
      requires Valid()
      ensures StrictlySorted(m) && Ids(m) == Free()
    {
      m := [];
      NoIds(m);
      CoveredNothing();
      if freePagesCount == 0 {
        return;
      }
      var startPageIds := SortedIds(forwardMap.Keys);
      hide *;
      ListNone(forwardMap, startPageIds);
      for i := 0 to |startPageIds|
        invariant Listed(forwardMap, startPageIds, i, m)
      {
        var start := startPageIds[i];
        assert start in Ids(startPageIds);
        var size := forwardMap[start];
        ListNext(forwardMap, startPageIds, i, m);
        m := AppendRun(m, start, size);
      }
      ListAll(forwardMap, startPageIds, m);
    }

    method FreeCount() returns (count: nat)
      requires Valid()
      ensures count == |Free()|
    {
      count := freePagesCount;
    }
  }
}
