// The freelist page of environment/bbolt/internal/freelist/shared.go and
// environment/bbolt/internal/common/page.go, as bytes: after the page header one word for each id, and
// before them one for their number when the 16-bit count cannot hold it.
module FreelistPages {
  import opened InodePages
  import opened Keys
  import opened PageIds
  import opened Reclaim
  import opened PendingLists
  import opened SharedFreelist

  const FREELIST_PAGE_FLAG := 0x10
  const PGID_SIZE := 8
  const COUNT_ESCAPE := 0xFFFF

  // The header and the ids on the bytes of a page: the flags at byte 8, the count at byte 10, the words from
  // byte 16 on.
  ghost predicate ListPage(m: seq<Byte>, ids: seq<Pgid>) {
    && WordAt(m, 8, 2, 0x10)
    && WordAt(m, 10, 2, if |ids| < 0xFFFF then |ids| else 0xFFFF)
    && (|ids| >= 0xFFFF ==> WordAt(m, 16, 8, |ids|))
    && WordsAt(m, if |ids| < 0xFFFF then 16 else 24, ids)
  }

  ghost predicate WordsAt(m: seq<Byte>, base: nat, ids: seq<Pgid>) {
    forall k :: 0 <= k < |ids| ==> WordAt(m, base + 8 * k, 8, ids[k])
  }

  // Where the first id lies, and how many there are, as FreelistPageCount finds it.
  ghost function Announced(m: seq<Byte>): (nat, nat)
    requires HasCount(m)
  {
    var count := Value(m[10..12]);
    if count == 0xFFFF then (24, Value(m[16..24])) else (16, count)
  }

  ghost predicate HasCount(m: seq<Byte>) {
    |m| >= 16 && (Value(m[10..12]) == 0xFFFF ==> |m| >= 24)
  }

  // A freelist page that holds as many ids as it announces.
  ghost predicate Readable(m: seq<Byte>) {
    && HasCount(m) && WordAt(m, 8, 2, 0x10)
    && var (base, n) := Announced(m); base + 8 * n <= |m|
  }

  ghost function Stored(m: seq<Byte>): seq<Pgid>
    requires Readable(m)
  {
    var (base, n) := Announced(m);
    seq(n, k requires 0 <= k < n && base + 8 * k + 8 <= |m| => Value(m[base + 8 * k..base + 8 * k + 8]))
  }

  // What Write leaves on the page reads back as the ids, whatever their number.
  lemma StoredWritten(m: seq<Byte>, ids: seq<Pgid>)
    requires ListPage(m, ids) && |m| >= 16
    ensures Readable(m) && Stored(m) == ids
  {
    var (base, n) := Announced(m);
    assert n == |ids| && base == if |ids| < 0xFFFF then 16 else 24;
    if ids != [] { assert WordAt(m, base + 8 * (n - 1), 8, ids[n - 1]); }
    forall k | 0 <= k < n ensures base + 8 * k + 8 <= |m| && Stored(m)[k] == ids[k] {
      assert WordAt(m, base + 8 * k, 8, ids[k]);
    }
  }

  // FreelistPageIds.
  method FreelistPageIds(buf: array<Byte>) returns (ids: seq<Pgid>)
    requires Readable(buf[..])
    ensures ids == Stored(buf[..])
  {
    ghost var m := buf[..];
    var idx, n := 0, Value(buf[10..12]);
    assert buf[10..12] == m[10..12];
    if n == COUNT_ESCAPE {
      assert buf[16..24] == m[16..24];
      idx := 1;
      n := Value(buf[16..24]);
    }
    ids := [];
    for k := 0 to n
      invariant ids == Stored(m)[..k]
    {
      var at := PAGE_HEADER_SIZE + PGID_SIZE * (idx + k);
      assert buf[at..at + 8] == m[at..at + 8];
      ids := ids + [Value(buf[at..at + 8])];
    }
  }

  // The number of words that n ids take.
  function WordsFor(n: nat): nat {
    if n >= COUNT_ESCAPE then n + 1 else n
  }

  function EstimatedSize(n: nat): nat {
    PAGE_HEADER_SIZE + PGID_SIZE * WordsFor(n)
  }

  // The pages that commitFreelist asks for, computed before it allocates them.
  function PagesAsked(n: nat, pageSize: nat): nat
    requires pageSize > 0
  {
    EstimatedSize(n) / pageSize + 1
  }

  // EstimatedWritePageSize: a header of sixteen bytes and eight for each word.
  method EstimatedWritePageSize(f: Freelist) returns (size: nat)
    requires f.Valid()
    ensures var n := |f.Abs().free + PageIdsOf(f.Abs().pending)|; size == 16 + 8 * (if n < 0xFFFF then n else n + 1)
    ensures size == EstimatedSize(|f.Abs().free + PageIdsOf(f.Abs().pending)|)
  {
    hide ListsOk, EntriesIn, BackendOk, FreeIds, PendingOk, Bounded, PageIdsOf;
    var n := f.Count();
    if n >= COUNT_ESCAPE { n := n + 1; }
    return PAGE_HEADER_SIZE + PGID_SIZE * n;
  }

  // As many whole pages as the header and the words of so many ids fill, and one more.
  ghost predicate AsksFor(ids: nat, pageSize: nat, n: nat)
    requires pageSize > 0
  {
    n == (16 + 8 * (if ids < 0xFFFF then ids else ids + 1)) / pageSize + 1
  }

  method PagesToAsk(f: Freelist, pageSize: nat) returns (n: nat)
    requires f.Valid() && pageSize > 0
    ensures n == PagesAsked(|f.Abs().free + PageIdsOf(f.Abs().pending)|, pageSize) > 0
    ensures AsksFor(|f.Abs().free + PageIdsOf(f.Abs().pending)|, pageSize, n)
  {
    hide ListsOk, EntriesIn, BackendOk, FreeIds, PendingOk, Bounded, PageIdsOf;
    var size := EstimatedWritePageSize(f);
    n := size / pageSize + 1;
  }

  lemma EstimateGrows(m: nat, n: nat)
    requires m <= n
    ensures EstimatedSize(m) <= EstimatedSize(n)
  {
  }

  lemma FewerIds(before: set<Pgid>, after: set<Pgid>)
    requires after <= before
    ensures |after| <= |before|
  {
    assert before == after + (before - after);
  }

  // Allocating the block for the freelist page changes how many ids there are to write, but
  // never for the worse: what is left fits the pages asked for, and they are at least one.
  lemma EstimateSuffices(c: Catalog, pageSize: nat, found: Pgid, left: set<Pgid>)
    requires pageSize > 0 && c.free !! PageIdsOf(c.pending)
    requires var n := |c.free + PageIdsOf(c.pending)|; Allocated(c.free, PagesAsked(n, pageSize), found, left)
    ensures var n := |c.free + PageIdsOf(c.pending)|; FitsPages(|left + PageIdsOf(c.pending)|, PagesAsked(n, pageSize) * pageSize)
  {
    hide Interval, PageIdsOf, EstimatedSize;
    var before, after := c.free + PageIdsOf(c.pending), left + PageIdsOf(c.pending);
    FewerIds(before, after);
    EstimateGrows(|after|, |before|);
    RoundedUp(EstimatedSize(|before|), pageSize);
    EstimateIsEnd(|after|);
  }

  // The header and the words of n ids fit into so many bytes.
  ghost predicate FitsPages(n: nat, bytes: int) {
    16 + 8 * (if n < 0xFFFF then n else n + 1) <= bytes
  }

  lemma EstimateIsEnd(n: nat)
    ensures EstimatedSize(n) == 16 + 8 * (if n < 0xFFFF then n else n + 1)
  {
  }

  // Write stores the free and the pending ids, in ascending order, and touches no byte but the flags, the
  // count and the words, which end where the estimate says.
  method Write(f: Freelist, buf: array<Byte>) returns (ghost ids: seq<Pgid>)
    requires f.Valid() && forall p :: p in f.Abs().free + PageIdsOf(f.Abs().pending) ==> 1 < p < 0x1_0000_0000_0000_0000
    requires FitsPages(|f.Abs().free + PageIdsOf(f.Abs().pending)|, buf.Length)
    modifies buf
    ensures StrictlySorted(ids) && Ids(ids) == old(f.Abs()).free + PageIdsOf(old(f.Abs()).pending)
    ensures ListPage(buf[..], ids) && Readable(buf[..]) && Stored(buf[..]) == ids
    ensures forall k :: 0 <= k < buf.Length && !(8 <= k < 12) && !(16 <= k < EstimatedSize(|ids|)) ==> buf[k] == old(buf[k])
  {
    hide ListsOk, EntriesIn, BackendOk, FreeIds, PendingOk, Bounded, PageIdsOf, StrictlySorted, Ids, Readable, Stored, ListPage;
    var all := AllIds(f);
    ids := all;
    assert forall p :: p in all ==> p in Ids(all);
    IdsFitWords(all);
    StoreIds(buf, all);
    StoredWritten(buf[..], all);
  }

  lemma {:induction false} IdsFitWords(ids: seq<Pgid>)
    requires StrictlySorted(ids) && forall p :: p in ids ==> 1 < p < 0x1_0000_0000_0000_0000
    ensures |ids| < 0x1_0000_0000_0000_0000
  {
    if ids != [] {
      AtLeastIndex(ids, |ids| - 1);
      assert ids[|ids| - 1] in ids;
    }
  }

  lemma {:induction false} AtLeastIndex(ids: seq<Pgid>, i: nat)
    requires StrictlySorted(ids) && i < |ids| && forall p :: p in ids ==> 1 < p
    ensures ids[i] >= i + 2
  {
    if i > 0 { AtLeastIndex(ids, i - 1); } else { assert ids[0] in ids; }
  }

  // The ids that Write stores.
  method AllIds(f: Freelist) returns (ids: seq<Pgid>)
    requires f.Valid()
    ensures StrictlySorted(ids) && Ids(ids) == f.Abs().free + PageIdsOf(f.Abs().pending) && |ids| == |Ids(ids)|
  {
    hide ListsOk, EntriesIn, BackendOk, FreeIds, PendingOk, Bounded, PageIdsOf, StrictlySorted, Ids;
    var l := f.Count();
    var dst := new Pgid[l];
    f.Copyall(dst, l);
    assert dst[..l] == dst[..];
    ids := dst[..];
  }

  // The part of Write that fills the page.
  method StoreIds(buf: array<Byte>, ids: seq<Pgid>)
    requires FitsPages(|ids|, buf.Length) && |ids| < 0x1_0000_0000_0000_0000
    requires forall p :: p in ids ==> p < 0x1_0000_0000_0000_0000
    modifies buf
    ensures ListPage(buf[..], ids)
    ensures forall k :: 0 <= k < buf.Length && !(8 <= k < 12) && !(16 <= k < EstimatedSize(|ids|)) ==> buf[k] == old(buf[k])
  {
    hide WordAt, WordsAt, Limit;
    WordLimits();
    PutWord(buf, 8, 2, FREELIST_PAGE_FLAG);
    ghost var m := buf[..];
    var l := |ids|;
    if l < COUNT_ESCAPE {
      PutWord(buf, 10, 2, l);
      WordKept(m, buf[..], 10, 12, 8, 2, 0x10);
      PutWords(buf, PAGE_HEADER_SIZE, ids);
    } else {
      PutWord(buf, 10, 2, COUNT_ESCAPE);
      WordKept(m, buf[..], 10, 12, 8, 2, 0x10);
      ghost var m1 := buf[..];
      PutWord(buf, PAGE_HEADER_SIZE, PGID_SIZE, l);
      WordKept(m1, buf[..], 16, 24, 8, 2, 0x10);
      WordKept(m1, buf[..], 16, 24, 10, 2, 0xFFFF);
      PutWords(buf, PAGE_HEADER_SIZE + PGID_SIZE, ids);
    }
  }

  lemma WordLimits()
    ensures Limit(2) == 0x1_0000 && Limit(8) == 0x1_0000_0000_0000_0000
  {
    assert Limit(1) == 256;
    assert Limit(3) == 0x100_0000;
    assert Limit(5) == 0x100_0000_0000;
    assert Limit(7) == 0x100_0000_0000_0000;
  }

  // copy(dst, ids), as words of eight bytes.
  method PutWords(buf: array<Byte>, base: nat, ids: seq<Pgid>)
    requires base + PGID_SIZE * |ids| <= buf.Length && forall p :: p in ids ==> p < Limit(8)
    modifies buf
    ensures WordsAt(buf[..], base, ids) && Outside(old(buf[..]), buf[..], base, base + 8 * |ids|)
    ensures forall off: nat, width: nat, n: nat :: WordAt(old(buf[..]), off, width, n) && off + width <= base ==> WordAt(buf[..], off, width, n)
  {
    hide WordAt, Limit;
    for i := 0 to |ids|
      invariant WordsAt(buf[..], base, ids[..i]) && Outside(old(buf[..]), buf[..], base, base + 8 * i)
    {
      ghost var m := buf[..];
      assert ids[i] in ids;
      PutWord(buf, base + PGID_SIZE * i, PGID_SIZE, ids[i]);
      forall k | 0 <= k < i + 1 ensures WordAt(buf[..], base + 8 * k, 8, ids[k]) {
        if k < i {
          assert WordAt(m, base + 8 * k, 8, ids[..i][k]);
          WordKept(m, buf[..], base + 8 * i, base + 8 * i + 8, base + 8 * k, 8, ids[k]);
        }
      }
    }
    assert ids[..|ids|] == ids;
    forall off: nat, width: nat, n: nat | WordAt(old(buf[..]), off, width, n) && off + width <= base ensures WordAt(buf[..], off, width, n) {
      WordKept(old(buf[..]), buf[..], base, base + 8 * |ids|, off, width, n);
    }
  }

  // The ids that a file may list: sorted on reading, they are distinct and never those of the metas.
  ghost predicate Listable(m: seq<Byte>) {
    Readable(m) && Distinct(Stored(m)) && forall id :: id in Stored(m) ==> id > 1
  }

  // Read loads the ids of a page into a freelist, pending or not.
  method Read(f: Freelist, buf: array<Byte>)
    requires f.Loading() && Listable(buf[..])
    modifies f`cache, Footprint(f.backend)
    ensures f.Loading() && f.Abs() == old(f.Abs()).(free := Ids(Stored(buf[..])))
    ensures f.Valid() <==> Ids(Stored(buf[..])) !! PageIdsOf(f.Abs().pending)
    ensures f.backend.ArrayBackend? || Stored(buf[..]) != [] ==> f.CacheAgrees()
    ensures f.backend.HashMapBackend? && Stored(buf[..]) == [] ==> f.cache == old(f.cache)
  {
    hide ListsOk, EntriesIn, BackendOk, FreeIds, PendingOk, Bounded, Stored, Readable, PageIdsOf;
    var ids := FreelistPageIds(buf);
    if |ids| == 0 {
      f.Init([]);
      assert Ids(ids) == Ids([]);
    } else {
      var idsCopy := SortDistinct(ids);
      f.Init(idsCopy);
    }
  }

  // Reload: the pages of the file that are not pending are free.
  method Reload(f: Freelist, buf: array<Byte>)
    requires f.Loading() && Listable(buf[..])
    modifies f`cache, Footprint(f.backend)
    ensures f.Valid() && f.Abs() == old(f.Abs()).(free := Ids(Stored(buf[..])) - PageIdsOf(old(f.Abs()).pending))
    ensures f.CacheAgrees() <==>
      f.backend.ArrayBackend? || Stored(buf[..]) != [] || old(f.cache) == PageIdsOf(f.Abs().pending)
  {
    hide ListsOk, EntriesIn, BackendOk, FreeIds, PendingOk, Bounded, Stored, Readable, PageIdsOf;
    Read(f, buf);
    var ids := f.FreePageIds();
    f.NoSyncReload(ids);
  }
}
