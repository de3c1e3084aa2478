// Page and transaction identifiers, and the sorted-list primitives of
// environment/bbolt/internal/common/page.go.
module PageIds {

  type Pgid = nat

  const PAGE_HEADER_SIZE := 16

  const MAX_TXID: nat := 0xFFFF_FFFF_FFFF_FFFF

  // Transaction ids are unsigned 64-bit words.
  type Txid = t: nat | t <= MAX_TXID

  ghost predicate Sorted(s: seq<nat>) {
    forall i, j :: 0 <= i < j < |s| ==> s[i] <= s[j]
  }

  ghost predicate StrictlySorted(s: seq<nat>) {
    forall i, j :: 0 <= i < j < |s| ==> s[i] < s[j]
  }

  ghost predicate Distinct(s: seq<nat>) {
    forall i, j :: 0 <= i < j < |s| ==> s[i] != s[j]
  }

  lemma StrictIsSorted(s: seq<nat>)
    requires StrictlySorted(s)
    ensures Sorted(s) && Distinct(s)
  {
  }

  // The page ids [start, start + n).
  function Interval(start: nat, n: nat): (r: set<nat>)
    ensures forall p :: p in r <==> start <= p < start + n
    decreases n
  {
    if n == 0 then {} else Interval(start, n - 1) + {start + n - 1}
  }

  lemma {:induction false} IntervalSize(start: nat, n: nat)
    ensures |Interval(start, n)| == n
  {
    if n > 0 {
      IntervalSize(start, n - 1);
    }
  }

  // The two ways in which sizes are rounded up to whole pages.
  lemma RoundedUp(size: nat, pageSize: nat)
    requires pageSize > 0
    ensures size <= (size / pageSize + 1) * pageSize
    ensures size <= (size + pageSize - 1) / pageSize * pageSize
    ensures size > 0 ==> ((size + pageSize - 1) / pageSize - 1) * pageSize < size
  {
    assert size == pageSize * (size / pageSize) + size % pageSize;
    var n := size + pageSize - 1;
    assert n == n / pageSize * pageSize + n % pageSize;
  }

  // n contiguous ids of a set, starting at p.
  ghost predicate RunAt(free: set<Pgid>, p: Pgid, n: nat) {
    Interval(p, n) <= free
  }

  // What both freelist backends promise of Allocate: pid is 0 exactly when nothing is
  // asked for or no n contiguous ids are free, and otherwise exactly [pid, pid + n) goes.
  ghost predicate Allocated(free: set<Pgid>, n: nat, pid: Pgid, left: set<Pgid>) {
    && (pid == 0 <==> n == 0 || !exists p :: RunAt(free, p, n))
    && (pid == 0 ==> left == free)
    && (pid != 0 ==> RunAt(free, pid, n) && left == free - Interval(pid, n))
  }

  // The ids of a list, as a set.
  function Ids(s: seq<nat>): (r: set<nat>)
    ensures forall p :: p in r <==> p in s
  {
    set p | p in s
  }

  lemma SortedDistinct(s: seq<nat>)
    requires Sorted(s) && Distinct(s)
    ensures StrictlySorted(s)
  {
  }

  lemma {:induction false} DistinctCount(s: seq<nat>)
    requires Distinct(s)
    ensures |Ids(s)| == |s|
    ensures forall p :: p in s ==> multiset(s)[p] == 1
  {
    if s == [] {
    } else {
      var n := |s| - 1;
      DistinctCount(s[..n]);
      assert s == s[..n] + [s[n]];
      assert Ids(s) == Ids(s[..n]) + {s[n]};
    }
  }

  lemma TwiceCounted(s: seq<nat>, i: nat, j: nat)
    requires i < j < |s|
    ensures s[i] == s[j] ==> multiset(s)[s[i]] >= 2
  {
    assert s == s[..i] + [s[i]] + s[i+1..j] + [s[j]] + s[j+1..];
  }

  lemma {:induction false} SameMultisetDistinct(s: seq<nat>, t: seq<nat>)
    requires multiset(s) == multiset(t) && Distinct(s)
    ensures Distinct(t) && Ids(t) == Ids(s) && |t| == |s|
  {
    DistinctCount(s);
    assert |multiset(t)| == |t| && |multiset(s)| == |s|;
    forall p ensures p in t <==> p in s {
      assert p in multiset(t) <==> p in multiset(s);
    }
    forall i, j | 0 <= i < j < |t| ensures t[i] != t[j] {
      TwiceCounted(t, i, j);
      assert t[i] in multiset(t);
    }
  }

  // sort.Search: the least index at which a monotone test holds.
  method Search(n: nat, f: nat --> bool) returns (index: nat)
    requires forall i: nat :: i < n ==> f.requires(i)
    requires forall i: nat, j: nat :: i <= j < n && f(i) ==> f(j)
    ensures index <= n
    ensures forall i: nat :: i < index ==> !f(i)
    ensures forall i: nat :: index <= i < n ==> f(i)
  {
    var i, j := 0, n;
    while i < j
      invariant 0 <= i <= j <= n
      invariant forall k: nat :: k < i ==> !f(k)
      invariant forall k: nat :: j <= k < n ==> f(k)
    {
      var h := (i + j) / 2;
      if !f(h) { i := h + 1; } else { j := h; }
    }
    index := i;
  }

  lemma InsertedIds(r: seq<nat>, k: nat, x: nat)
    requires k <= |r|
    ensures multiset(r[..k] + [x] + r[k..]) == multiset(r) + multiset{x}
  {
    assert r == r[..k] + r[k..];
  }

  // sort.Sort on ids.
  method Sort(s: seq<nat>) returns (r: seq<nat>)
    ensures Sorted(r) && multiset(r) == multiset(s)
  {
    r := [];
    for i := 0 to |s|
      invariant Sorted(r) && multiset(r) == multiset(s[..i])
    {
      var k := PrefixUpTo(r, s[i]);
      InsertedIds(r, k, s[i]);
      assert s[..i+1] == s[..i] + [s[i]];
      r := r[..k] + [s[i]] + r[k..];
    }
    assert s[..|s|] == s;
  }

  lemma MergedNothing(a: seq<Pgid>)
    ensures Merged(a, []) == a == Merged([], a)
  {
  }

  // sort.Sort on ids without duplicates.
  method SortDistinct(s: seq<nat>) returns (r: seq<nat>)
    requires Distinct(s)
    ensures StrictlySorted(r) && Ids(r) == Ids(s) && |r| == |s|
    ensures forall p :: p in r <==> p in s
  {
    r := Sort(s);
    SameMultisetDistinct(s, r);
    assert forall p :: p in r <==> p in Ids(r);
  }

  // The keys of a map in ascending order: collect in any order, then sort.
  method SortedIds(ids: set<nat>) returns (r: seq<nat>)
    ensures StrictlySorted(r) && Ids(r) == ids
  {
    var rest, keys: seq<nat> := ids, [];
    while rest != {}
      invariant rest <= ids && Ids(keys) == ids - rest && Distinct(keys)
    {
      var k :| k in rest;
      assert k !in Ids(keys);
      rest, keys := rest - {k}, keys + [k];
    }
    r := SortDistinct(keys);
  }

  // The textbook merge, one id at a time: the reference for Mergepgids.
  ghost function Merged(a: seq<Pgid>, b: seq<Pgid>): (r: seq<Pgid>)
    ensures |r| == |a| + |b|
    decreases |a| + |b|
  {
    if a == [] then b
    else if b == [] then a
    else if a[0] <= b[0] then [a[0]] + Merged(a[1..], b)
    else [b[0]] + Merged(a, b[1..])
  }

  lemma HeadIds(a: seq<Pgid>)
    requires a != []
    ensures multiset(a) == multiset{a[0]} + multiset(a[1..])
  {
    assert a == [a[0]] + a[1..];
  }

  lemma {:induction false} MergedIds(a: seq<Pgid>, b: seq<Pgid>)
    ensures multiset(Merged(a, b)) == multiset(a) + multiset(b)
    decreases |a| + |b|
  {
    if a != [] && b != [] {
      var all := Merged(a, b);
      HeadIds(all);
      if a[0] <= b[0] {
        MergedIds(a[1..], b);
        HeadIds(a);
        assert all[1..] == Merged(a[1..], b);
      } else {
        MergedIds(a, b[1..]);
        HeadIds(b);
        assert all[1..] == Merged(a, b[1..]);
      }
    }
  }

  lemma {:induction false} MergedSorted(a: seq<Pgid>, b: seq<Pgid>, low: nat)
    requires Sorted(a) && Sorted(b)
    requires (a != [] ==> low <= a[0]) && (b != [] ==> low <= b[0])
    ensures Sorted(Merged(a, b)) && (Merged(a, b) != [] ==> low <= Merged(a, b)[0])
    decreases |a| + |b|
  {
    if a != [] && b != [] {
      if a[0] <= b[0] {
        MergedSorted(a[1..], b, a[0]);
      } else {
        MergedSorted(a, b[1..], b[0]);
      }
    }
  }

  lemma {:induction false} MergedSymmetric(a: seq<Pgid>, b: seq<Pgid>)
    requires Sorted(a) && Sorted(b)
    ensures Merged(a, b) == Merged(b, a)
    decreases |a| + |b|
  {
    if a != [] && b != [] {
      if a[0] < b[0] {
        MergedSymmetric(a[1..], b);
      } else if b[0] < a[0] {
        MergedSymmetric(a, b[1..]);
      } else {
        MergedSymmetric(a[1..], b);
        MergedSymmetric(a[1..], b[1..]);
        MergedSymmetric(a, b[1..]);
      }
    }
  }

  // A whole prefix of the lead that is not ahead of follow can go out at once.
  lemma {:induction false} MergedGallop(lead: seq<Pgid>, follow: seq<Pgid>, n: nat)
    requires Sorted(lead) && Sorted(follow) && follow != [] && n <= |lead|
    requires forall i :: 0 <= i < n ==> lead[i] <= follow[0]
    ensures Merged(lead, follow) == lead[..n] + Merged(follow, lead[n..])
    decreases n
  {
    hide Sorted, Merged;
    if n == 0 {
      assert lead[..0] == [] && lead[0..] == lead;
      MergedSymmetric(lead, follow);
    } else {
      SortedTail(lead);
      MergedHead(lead, follow);
      MergedGallop(lead[1..], follow, n - 1);
      assert lead[..n] == [lead[0]] + lead[1..][..n - 1];
      assert lead[n..] == lead[1..][n - 1..];
    }
  }

  lemma MergedHead(a: seq<Pgid>, b: seq<Pgid>)
    requires a != [] && b != [] && a[0] <= b[0]
    ensures Merged(a, b) == [a[0]] + Merged(a[1..], b)
  {
  }

  lemma SortedTail(s: seq<Pgid>)
    requires Sorted(s) && s != []
    ensures Sorted(s[1..])
  {
  }

  lemma DisjointConcat(a: seq<Pgid>, b: seq<Pgid>)
    requires Distinct(a) && Distinct(b) && Ids(a) !! Ids(b)
    ensures Distinct(a + b) && Ids(a + b) == Ids(a) + Ids(b)
  {
    forall i, j | 0 <= i < j < |a + b| ensures (a + b)[i] != (a + b)[j] {
      if i < |a| <= j { assert a[i] in Ids(a) && b[j - |a|] in Ids(b); }
    }
  }

  // Merging two disjoint ascending lists gives the ascending list of their union.
  lemma DisjointUnion(a: seq<Pgid>, b: seq<Pgid>)
    requires StrictlySorted(a) && StrictlySorted(b) && Ids(a) !! Ids(b)
    ensures StrictlySorted(Merged(a, b)) && Ids(Merged(a, b)) == Ids(a) + Ids(b)
    ensures |Merged(a, b)| == |Ids(a) + Ids(b)|
  {
    hide Merged, Ids;
    var r := Merged(a, b);
    MergedSorted(a, b, 0);
    MergedIds(a, b);
    DisjointConcat(a, b);
    SameMultisetDistinct(a + b, r);
    SortedDistinct(r);
    DistinctCount(a + b);
  }

  // Mergepgids copies the sorted union of a and b into dst, moving each time the
  // largest prefix of the leading list that is not ahead of the following one.
  method Mergepgids(dst: array<Pgid>, a: seq<Pgid>, b: seq<Pgid>)
    requires dst.Length >= |a| + |b|
    requires Sorted(a) && Sorted(b)
    modifies dst
    ensures dst[..|a| + |b|] == Merged(a, b)
    ensures forall k :: |a| + |b| <= k < dst.Length ==> dst[k] == old(dst[k])
  {
    if |a| == 0 {
      CopyAt(dst, 0, b);
      return;
    }
    if |b| == 0 {
      CopyAt(dst, 0, a);
      return;
    }
    var lead, follow := a, b;
    if b[0] < a[0] {
      lead, follow := b, a;
      MergedSymmetric(a, b);
    }
    MergeRounds(dst, lead, follow);
  }

  // One round, after the ids already out.
  lemma {:induction false} RoundDone(out: seq<Pgid>, lead: seq<Pgid>, follow: seq<Pgid>, n: nat)
    requires Sorted(lead) && Sorted(follow) && follow != [] && n <= |lead|
    requires forall i :: 0 <= i < n ==> lead[i] <= follow[0]
    ensures (out + lead[..n]) + Merged(follow, lead[n..]) == out + Merged(lead, follow)
    ensures n == |lead| ==> (out + lead[..n]) + follow == out + Merged(lead, follow)
  {
    hide Merged;
    MergedGallop(lead, follow, n);
    assert out + (lead[..n] + Merged(follow, lead[n..])) == (out + lead[..n]) + Merged(follow, lead[n..]);
    if n == |lead| {
      assert lead[n..] == [];
      MergedNothing(follow);
    }
  }

  // The rounds of Mergepgids.
  method MergeRounds(dst: array<Pgid>, a: seq<Pgid>, b: seq<Pgid>)
    requires dst.Length >= |a| + |b|
    requires Sorted(a) && Sorted(b) && a != [] && b != [] && a[0] <= b[0]
    modifies dst
    ensures dst[..|a| + |b|] == Merged(a, b)
    ensures forall k :: |a| + |b| <= k < dst.Length ==> dst[k] == old(dst[k])
  {
    hide Merged;
    var merged := 0;
    var lead, follow := a, b;
    ghost var out: seq<Pgid> := [];
    while |lead| > 0
      invariant merged + |lead| + |follow| == |a| + |b|
      invariant Sorted(lead) && Sorted(follow) && lead != [] && follow != [] && lead[0] <= follow[0]
      invariant dst[..merged] == out && out + Merged(lead, follow) == Merged(a, b)
      invariant forall k :: |a| + |b| <= k < dst.Length ==> dst[k] == old(dst[k])
      decreases |lead| + |follow|
    {
      var n := PrefixUpTo(lead, follow[0]);
      RoundDone(out, lead, follow, n);
      CopyAt(dst, merged, lead[..n]);
      merged, out := merged + n, out + lead[..n];
      if n >= |lead| {
        break;
      }
      lead, follow := follow, lead[n..];
    }
    CopyAt(dst, merged, follow);
  }

  // The number of leading ids that are not above bound.
  method PrefixUpTo(s: seq<Pgid>, bound: Pgid) returns (n: nat)
    requires Sorted(s)
    ensures n <= |s| && (forall i :: 0 <= i < n ==> s[i] <= bound) && (n < |s| ==> s[n] > bound)
  {
    var above := (i: nat) requires i < |s| => s[i] > bound;
    n := Search(|s|, above);
    assert forall i: nat :: i < |s| ==> (above(i) <==> s[i] > bound);
  }

  // copy(dst[at:], s).
  method CopyAt(dst: array<Pgid>, at: nat, s: seq<Pgid>)
    requires at + |s| <= dst.Length
    modifies dst
    ensures dst[..at + |s|] == old(dst[..at]) + s
    ensures forall k :: at + |s| <= k < dst.Length ==> dst[k] == old(dst[k])
  {
    for i := 0 to |s|
      invariant dst[..at + i] == old(dst[..at]) + s[..i]
      invariant forall k :: at + |s| <= k < dst.Length ==> dst[k] == old(dst[k])
    {
      dst[at + i] := s[i];
    }
  }

  // Pgids.Merge.
  method Merge(s: seq<Pgid>, b: seq<Pgid>) returns (r: seq<Pgid>)
    requires Sorted(s) && Sorted(b)
    ensures r == Merged(s, b)
  {
    if |s| == 0 { return b; }
    if |b| == 0 { return s; }
    var merged := new Pgid[|s| + |b|];
    Mergepgids(merged, s, b);
    assert merged[..|s| + |b|] == merged[..];
    r := merged[..];
  }
}
