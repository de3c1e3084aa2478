// The sorted-array freelist backend of environment/bbolt/internal/freelist/array.go.
module ArrayFreelist {
  import opened PageIds

  ghost predicate Consecutive(ids: seq<Pgid>, lo: nat, hi: nat)
    requires lo <= hi <= |ids|
  {
    forall k :: lo <= k < hi ==> ids[k] == ids[lo] + (k - lo)
  }

  // The scan has read i ids and the last m of them are consecutive, m < n. They cannot be
  // extended downwards, and no n contiguous free ids end at or before the last of them.
  ghost predicate Scanned(ids: seq<Pgid>, i: nat, m: nat, n: nat) {
    && 0 < m <= i <= |ids| && m < n
    && Consecutive(ids, i - m, i)
    && Lowest(ids, ids[i - m])
    && NoRunUpTo(ids, ids[i - 1] + 1, n)
  }

  ghost predicate Lowest(ids: seq<Pgid>, first: Pgid) {
    first > 0 && first - 1 !in ids
  }

  ghost predicate NoRunUpTo(ids: seq<Pgid>, end: nat, n: nat) {
    forall q: Pgid :: q + n <= end ==> !RunAt(Ids(ids), q, n)
  }

  // No free id lies strictly between two neighbours of the list.
  lemma NoIdBetween(ids: seq<Pgid>, i: nat, p: Pgid)
    requires StrictlySorted(ids) && i < |ids| && p in ids && p < ids[i]
    ensures i > 0 && p <= ids[i - 1]
  {
    var k :| 0 <= k < |ids| && ids[k] == p;
  }

  // A run that ends at or before the i-th id, and not before, must reach down to first.
  lemma OnlyRun(ids: seq<Pgid>, i: nat, first: Pgid, n: nat)
    requires StrictlySorted(ids) && i < |ids| && n > 0 && Lowest(ids, first)
    requires i > 0 ==> NoRunUpTo(ids, ids[i - 1] + 1, n)
    requires first <= ids[i] && ids[i] - first + 1 <= n
    ensures forall q: Pgid :: q + n <= ids[i] + 1 && RunAt(Ids(ids), q, n) ==> q == first && first + n == ids[i] + 1
  {
    forall q: Pgid | q + n <= ids[i] + 1 && RunAt(Ids(ids), q, n)
      ensures q == first && first + n == ids[i] + 1
    {
      var last := q + n - 1;
      assert last in Interval(q, n);
      if last < ids[i] { NoIdBetween(ids, i, last); }
      assert q < first ==> first - 1 in Interval(q, n);
    }
  }

  // One step of the scan: either the run has reached n ids, and it is the lowest such run,
  // or it is still shorter. m is the length of the run before the step, 0 at the start.
  lemma ScanStep(ids: seq<Pgid>, i: nat, m: nat, n: nat)
    requires StrictlySorted(ids) && i < |ids| && n > 0 && forall id :: id in ids ==> id > 1
    requires if i == 0 then m == 0 else Scanned(ids, i, m, n)
    ensures var m' := if i > 0 && ids[i] - ids[i - 1] == 1 then m + 1 else 1;
      && m' <= i + 1 && ids[i + 1 - m'] + m' == ids[i] + 1 && Consecutive(ids, i + 1 - m', i + 1)
      && (m' == n ==> forall q: Pgid :: RunAt(Ids(ids), q, n) ==> ids[i + 1 - m'] <= q)
      && (m' != n ==> Scanned(ids, i + 1, m', n))
  {
    hide RunAt, Ids;
    var m' := if i > 0 && ids[i] - ids[i - 1] == 1 then m + 1 else 1;
    var first := ids[i + 1 - m'];
    assert Lowest(ids, first) by {
      assert first in ids;
      if m' == 1 && first - 1 in ids { NoIdBetween(ids, i, first - 1); }
    }
    assert ids[i] == first + m' - 1;
    OnlyRun(ids, i, first, n);
  }

  lemma RunEnds(ids: seq<Pgid>, p: Pgid, n: nat)
    requires StrictlySorted(ids) && n > 0 && RunAt(Ids(ids), p, n)
    ensures |ids| > 0 && p + n <= ids[|ids| - 1] + 1
  {
    assert p + n - 1 in Interval(p, n);
    var k :| 0 <= k < |ids| && ids[k] == p + n - 1;
  }

  lemma NothingFound(ids: seq<Pgid>, m: nat, n: nat)
    requires StrictlySorted(ids) && n > 0 && (|ids| > 0 ==> Scanned(ids, |ids|, m, n))
    ensures !exists p: Pgid :: RunAt(Ids(ids), p, n)
  {
    forall p: Pgid | RunAt(Ids(ids), p, n) ensures false {
      RunEnds(ids, p, n);
    }
  }

  lemma ConsecutiveIds(s: seq<Pgid>)
    requires s != [] && Consecutive(s, 0, |s|)
    ensures Ids(s) == Interval(s[0], |s|)
  {
    forall p | p in Interval(s[0], |s|) ensures p in s {
      assert s[p - s[0]] == p;
    }
  }

  // Cutting a block out of the list removes exactly the ids of the block.
  lemma CutIds(ids: seq<Pgid>, lo: nat, hi: nat)
    requires StrictlySorted(ids) && lo < hi <= |ids| && Consecutive(ids, lo, hi)
    ensures StrictlySorted(ids[..lo] + ids[hi..])
    ensures Ids(ids[..lo] + ids[hi..]) == Ids(ids) - Interval(ids[lo], hi - lo)
    ensures RunAt(Ids(ids), ids[lo], hi - lo)
  {
    hide Interval, Consecutive;
    var block := ids[lo..hi];
    assert Consecutive(block, 0, |block|) by { BlockConsecutive(ids, lo, hi); }
    ConsecutiveIds(block);
    assert ids == ids[..lo] + block + ids[hi..];
    assert Ids(ids) == Ids(ids[..lo] + ids[hi..]) + Ids(block);
    assert forall p :: p in block ==> p !in ids[..lo] && p !in ids[hi..];
  }

  lemma BlockConsecutive(ids: seq<Pgid>, lo: nat, hi: nat)
    requires lo < hi <= |ids| && Consecutive(ids, lo, hi)
    ensures Consecutive(ids[lo..hi], 0, hi - lo)
  {
  }

  class Array {
    var ids: seq<Pgid>  // all free page ids, in ascending order

    ghost predicate Valid()
      reads this
    {
      StrictlySorted(ids) && forall id :: id in ids ==> id > 1
    }

    ghost function Free(): set<Pgid>
      reads this
    {
      Ids(ids)
    }

    constructor ()
      ensures Valid() && Free() == {}
    {
      ids := [];
    }

    method Init(pgids: seq<Pgid>)
      requires StrictlySorted(pgids) && forall id :: id in pgids ==> id > 1
      modifies this
      ensures Valid() && Free() == Ids(pgids)
    {
      ids := pgids;
    }

    method MergeSpans(pgids: seq<Pgid>)
      requires Valid() && Distinct(pgids)
      requires forall id :: id in pgids ==> id > 1 && id !in Free()
      modifies this
      ensures Valid() && Free() == old(Free()) + Ids(pgids)
    {
      var sorted := SortDistinct(pgids);
      DisjointUnion(ids, sorted);
      ids := Merge(ids, sorted);
    }

    method FreeCount() returns (count: nat)
      requires Valid()
      ensures count == |Free()|
    {
      DistinctCount(ids);
      count := |ids|;
    }

    // All free page ids, in ascending order.
    method FreePageIds() returns (m: seq<Pgid>)
      requires Valid()
      ensures StrictlySorted(m) && Ids(m) == Free()
    {
      m := ids;
    }

    // First fit: the lowest n contiguous ids.
    method Allocate(n: nat) returns (pid: Pgid)
      requires Valid()
      modifies this
      ensures Valid() && Allocated(old(Free()), n, pid, Free())
      ensures pid != 0 ==> forall q: Pgid :: RunAt(old(Free()), q, n) ==> pid <= q
    {
      hide Ids, Interval, RunAt, Scanned, Consecutive;
      var initial, previd := 0, 0;
      ghost var m := 0;
      for i := 0 to |ids|
        invariant unchanged(this)
        invariant if i == 0 then previd == m == 0 else previd == ids[i - 1] && previd + 1 == initial + m && initial > 0
        invariant n > 0 && i > 0 ==> Scanned(ids, i, m, n)
      {
        var id := ids[i];
        assert id in ids && (i > 0 ==> ids[i - 1] in ids);
        if n > 0 { ScanStep(ids, i, m, n); }
        if previd == 0 || id - previd != 1 {
          initial, m := id, 0;
        }
        m := m + 1;
        if (id - initial) + 1 == n {
          TakeBlock(i, n);
          return initial;
        }
        previd := id;
      }
      if n > 0 { NothingFound(ids, m, n); }
      return 0;
    }

    // Removes the n consecutive ids that end at index i.
    method TakeBlock(i: nat, n: nat)
      requires Valid() && 0 < n <= i + 1 <= |ids| && Consecutive(ids, i + 1 - n, i + 1)
      modifies this
      ensures Valid() && RunAt(old(Free()), old(ids[i + 1 - n]), n)
      ensures Free() == old(Free()) - Interval(old(ids[i + 1 - n]), n)
    {
      hide Ids, Interval, RunAt, Consecutive, StrictlySorted;
      CutIds(ids, i + 1 - n, i + 1);
      ghost var kept := ids[..i + 1 - n] + ids[i + 1..];
      assert forall p :: p in kept ==> p in ids;
      if i + 1 == n {
        ids := ids[i + 1..];
      } else {
        ids := ids[..i - n + 1] + ids[i + 1..];
      }
      assert ids == kept;
    }
  }
}
