// ClearPageElements of environment/bbolt/internal/surgeon/surgeon.go, on the page in memory.
module Surgeon {
  import opened InodePages
  import opened Inodes
  import opened Keys
  import opened Nodes
  import opened PageIds

  const BRANCH_PAGE_FLAG := 0x01
  const LEAF_PAGE_FLAG := 0x02

  datatype Outcome =
    | Cleared(needsFreelist: bool)
    | NothingToClear
    | WrongPageType
    | StartOutOfRange
    | EndOutOfRange
    | StartAfterEnd
    | NoElements

  // The page header: flags, count and overflow.
  ghost predicate PageHeader(m: seq<Byte>, isLeaf: bool, count: nat, overflow: nat) {
    && WordAt(m, 8, 2, if isLeaf then 2 else 1)
    && WordAt(m, 10, 2, count) && WordAt(m, 12, 4, overflow)
  }

  // The elements that stay.
  function Kept<T>(s: seq<T>, start: nat, end: nat): (kept: seq<T>)
    requires start <= end <= |s|
    ensures |kept| == |s| - (end - start)
    ensures forall i :: 0 <= i < |kept| ==> kept[i] == if i < start then s[i] else s[i + (end - start)]
  {
    s[..start] + s[end..]
  }

  function AllAsRead(isLeaf: bool, inodes: seq<Inode>): (read: seq<Inode>)
    ensures |read| == |inodes|
  {
    seq(|inodes|, i requires 0 <= i < |inodes| => AsRead(isLeaf, inodes[i]))
  }

  function Origin(i: nat, start: nat, end: nat): nat
    requires start <= end
  {
    if i < start then i else i + (end - start)
  }

  // No element moves towards the end of the page.
  lemma {:induction false} MovesDown(inodes: seq<Inode>, isLeaf: bool, start: nat, end: nat, i: nat)
    requires start <= end <= |inodes| && i < |inodes| - (end - start)
    ensures var kept := AllAsRead(isLeaf, Kept(inodes, start, end));
      DataAt(kept, |kept|, i) <= DataAt(inodes, |inodes|, Origin(i, start, end))
    decreases i
  {
    var kept, n := AllAsRead(isLeaf, Kept(inodes, start, end)), |inodes|;
    var o := Origin(i, start, end);
    if i == 0 {
      DataRises(inodes, n, 0, o);
    } else {
      MovesDown(inodes, isLeaf, start, end, i - 1);
      var o' := Origin(i - 1, start, end);
      DataRises(inodes, n, o', o);
      assert kept[i - 1] == AsRead(isLeaf, inodes[o']);
    }
  }

  // So the elements that stay can be written from where they lie.
  lemma {:induction false} KeptIsMovable(m: seq<Byte>, isLeaf: bool, inodes: seq<Inode>, items: seq<Item>, start: nat, end: nat)
    requires start <= end <= |inodes| == |items|
    requires forall i :: 0 <= i < |items| ==> ReadAt(m, isLeaf, DataAt(inodes, |inodes|, i), inodes[i], items[i])
    ensures Movable(m, Kept(items, start, end), AllAsRead(isLeaf, Kept(inodes, start, end)))
  {
    hide DataAt;
    var kept, left := AllAsRead(isLeaf, Kept(inodes, start, end)), Kept(items, start, end);
    forall i | 0 <= i < |left| ensures MovableAt(m, left, kept, i) {
      var o := Origin(i, start, end);
      MovesDown(inodes, isLeaf, start, end, i);
      assert left[i] == items[o] && kept[i] == AsRead(isLeaf, inodes[o]);
      assert ReadAt(m, isLeaf, DataAt(inodes, |inodes|, o), inodes[o], items[o]);
    }
  }

  lemma {:induction false} KeptIsSmaller(inodes: seq<Inode>, isLeaf: bool, start: nat, end: nat)
    requires start <= end <= |inodes|
    ensures NodeSize(AllAsRead(isLeaf, Kept(inodes, start, end))) <= NodeSize(inodes)
  {
    var kept := AllAsRead(isLeaf, Kept(inodes, start, end));
    EndsAtSize(kept);
    EndsAtSize(inodes);
    if kept == [] {
      DataRises(inodes, |inodes|, 0, |inodes|);
    } else {
      var i := |kept| - 1;
      MovesDown(inodes, isLeaf, start, end, i);
      DataRises(inodes, |inodes|, Origin(i, start, end), |inodes|);
      assert kept[i] == AsRead(isLeaf, inodes[Origin(i, start, end)]);
    }
  }

  // What is written to the file: whole pages from the start.
  lemma PrefixElement(m: seq<Byte>, isLeaf: bool, i: nat, d: nat, inode: Inode, size: nat)
    requires ElementAt(m, isLeaf, i, d, inode) && d + |inode.key| + |inode.value| <= size <= |m|
    ensures ElementAt(m[..size], isLeaf, i, d, inode)
  {
    hide ElementAt, HeaderAt, BytesAt;
    ElementParts(m, isLeaf, i, d, inode);
    PrefixHeader(m, isLeaf, i, d - Element(i), inode, size);
    PrefixBytes(m, d, inode.key, size);
    PrefixBytes(m, d + |inode.key|, inode.value, size);
    ElementOfParts(m[..size], isLeaf, i, d, inode);
  }

  lemma ElementParts(m: seq<Byte>, isLeaf: bool, i: nat, d: nat, inode: Inode)
    requires ElementAt(m, isLeaf, i, d, inode)
    ensures Element(i) + PAGE_ELEMENT_SIZE <= d && HeaderAt(m, isLeaf, i, d - Element(i), inode)
    ensures BytesAt(m, d, inode.key) && BytesAt(m, d + |inode.key|, inode.value)
  {
  }

  lemma ElementOfParts(m: seq<Byte>, isLeaf: bool, i: nat, d: nat, inode: Inode)
    requires Element(i) + PAGE_ELEMENT_SIZE <= d && HeaderAt(m, isLeaf, i, d - Element(i), inode)
    requires BytesAt(m, d, inode.key) && BytesAt(m, d + |inode.key|, inode.value)
    ensures ElementAt(m, isLeaf, i, d, inode)
  {
  }

  lemma PrefixWord(m: seq<Byte>, off: nat, width: nat, n: nat, size: nat)
    requires WordAt(m, off, width, n) && off + width <= size <= |m|
    ensures WordAt(m[..size], off, width, n)
  {
    assert m[..size][off..off + width] == m[off..off + width];
  }

  lemma PrefixBytes(m: seq<Byte>, off: nat, bytes: seq<Byte>, size: nat)
    requires BytesAt(m, off, bytes) && off + |bytes| <= size <= |m|
    ensures BytesAt(m[..size], off, bytes)
  {
    assert m[..size][off..off + |bytes|] == m[off..off + |bytes|];
  }

  lemma PrefixHeader(m: seq<Byte>, isLeaf: bool, i: nat, pos: nat, inode: Inode, size: nat)
    requires HeaderAt(m, isLeaf, i, pos, inode) && Element(i) + PAGE_ELEMENT_SIZE <= size <= |m|
    ensures HeaderAt(m[..size], isLeaf, i, pos, inode)
  {
    hide WordAt;
    if isLeaf {
      PrefixWord(m, Element(i), 4, inode.flags, size);
      PrefixWord(m, Element(i) + 4, 4, pos, size);
      PrefixWord(m, Element(i) + 8, 4, |inode.key|, size);
      PrefixWord(m, Element(i) + 12, 4, |inode.value|, size);
    } else {
      PrefixWord(m, Element(i), 4, pos, size);
      PrefixWord(m, Element(i) + 4, 4, |inode.key|, size);
      PrefixWord(m, Element(i) + 8, 8, inode.pgid, size);
    }
  }

  lemma {:induction false} PackedPrefix(m: seq<Byte>, isLeaf: bool, inodes: seq<Inode>, size: nat)
    requires Packed(m, isLeaf, inodes) && NodeSize(inodes) <= size <= |m|
    ensures Packed(m[..size], isLeaf, inodes)
  {
    hide ElementAt, NodeSize;
    EndsAtSize(inodes);
    forall i | 0 <= i < |inodes| ensures ElementOf(m[..size], isLeaf, inodes, i) {
      assert ElementOf(m, isLeaf, inodes, i);
      DataRises(inodes, |inodes|, i, |inodes|);
      PrefixElement(m, isLeaf, i, DataAt(inodes, |inodes|, i), inodes[i], size);
    }
  }

  // The elements before start, where they were.
  ghost predicate StillThere(m: seq<Byte>, isLeaf: bool, inodes: seq<Inode>, start: nat)
    requires start <= |inodes|
  {
    forall i :: 0 <= i < start ==> ElementOf(m, isLeaf, inodes, i)
  }

  // They are all in the pages written if and only if the last of them ends there.
  lemma {:induction false} TailSurvives(m: seq<Byte>, isLeaf: bool, inodes: seq<Inode>, start: nat, size: nat)
    requires Packed(m, isLeaf, inodes) && 0 < start <= |inodes| && size <= |m|
    ensures StillThere(m[..size], isLeaf, inodes, start) <==> DataAt(inodes, |inodes|, start) <= size
  {
    hide ElementAt;
    var n := |inodes|;
    if DataAt(inodes, n, start) <= size {
      forall i | 0 <= i < start ensures ElementOf(m[..size], isLeaf, inodes, i) {
        assert ElementOf(m, isLeaf, inodes, i);
        DataRises(inodes, n, i, start);
        PrefixElement(m, isLeaf, i, DataAt(inodes, n, i), inodes[i], size);
      }
    }
    if StillThere(m[..size], isLeaf, inodes, start) {
      assert ElementOf(m[..size], isLeaf, inodes, start - 1);
      ElementParts(m[..size], isLeaf, start - 1, DataAt(inodes, n, start - 1), inodes[start - 1]);
    }
  }

  // The overflow that ClearPageElements gives a page, from the bytes it counts.
  function OverflowFor(written: nat, pageSize: nat): nat
    requires pageSize > 0 && written > 0
  {
    if written % pageSize == 0 then written / pageSize - 1 else written / pageSize
  }

  lemma OverflowSuffices(written: nat, pageSize: nat, pages: nat)
    requires pageSize > 0 && 0 < written <= pageSize * pages
    ensures written <= pageSize * (OverflowFor(written, pageSize) + 1) <= pageSize * pages
  {
    var q, r := written / pageSize, written % pageSize;
    assert written == pageSize * q + r;
    if r == 0 {
      assert pageSize * (OverflowFor(written, pageSize) + 1) == pageSize * q;
    } else {
      assert pageSize * (q + 1) == pageSize * q + pageSize;
      if pages < q + 1 { Multiples(pageSize, pages, q); }
      if q + 1 <= pages { Multiples(pageSize, q + 1, pages); }
    }
  }

  lemma Multiples(pageSize: nat, a: nat, b: nat)
    requires a <= b
    ensures pageSize * a <= pageSize * b
  {
    assert pageSize * b == pageSize * a + pageSize * (b - a);
  }

  lemma {:induction false} ValueBelow(bytes: seq<Byte>)
    ensures Value(bytes) < Limit(|bytes|)
  {
    if bytes != [] { ValueBelow(bytes[1..]); }
  }

  lemma SmallLimit()
    ensures Limit(2) == 0x1_0000
  {
    assert Limit(1) == 256;
  }

  // A page of whole pages, packed as WriteInodeToPage leaves it.
  ghost predicate Clearable(m: seq<Byte>, isLeaf: bool, inodes: seq<Inode>, overflow: nat, pageSize: nat) {
    && pageSize > 0 && |m| == pageSize * (overflow + 1) && |m| < 0x1_0000_0000
    && PageHeader(m, isLeaf, |inodes|, overflow) && Packed(m, isLeaf, inodes) && NodeSize(inodes) <= |m|
    && forall inode :: inode in inodes ==> Encodable(isLeaf, inode)
  }

  method PutCount(buf: array<Byte>, count: nat, ghost isLeaf: bool, ghost was: nat, ghost overflow: nat)
    requires PageHeader(buf[..], isLeaf, was, overflow) && count <= was && buf.Length >= PAGE_HEADER_SIZE
    modifies buf
    ensures PageHeader(buf[..], isLeaf, count, overflow) && Outside(old(buf[..]), buf[..], 10, 12)
  {
    hide WordAt, Limit;
    ghost var m := buf[..];
    SmallLimit();
    WordBelow(m, 10, 2, was);
    PutWord(buf, 10, 2, count);
    WordKept(m, buf[..], 10, 12, 8, 2, if isLeaf then LEAF_PAGE_FLAG else BRANCH_PAGE_FLAG);
    WordKept(m, buf[..], 10, 12, 12, 4, overflow);
  }

  lemma WordBelow(m: seq<Byte>, off: nat, width: nat, n: nat)
    requires WordAt(m, off, width, n)
    ensures n < Limit(width)
  {
    ValueBelow(m[off..off + width]);
  }

  method PutOverflow(buf: array<Byte>, written: nat, pageSize: nat, ghost isLeaf: bool, ghost count: nat, ghost was: nat) returns (overflow: nat)
    requires PageHeader(buf[..], isLeaf, count, was) && PAGE_HEADER_SIZE <= buf.Length < 0x1_0000_0000
    requires 0 < pageSize && 0 < written <= buf.Length
    modifies buf
    ensures overflow == OverflowFor(written, pageSize) && PageHeader(buf[..], isLeaf, count, overflow)
    ensures Outside(old(buf[..]), buf[..], 12, 16)
  {
    hide WordAt, Limit;
    ghost var m := buf[..];
    overflow := OverflowFor(written, pageSize);
    Limits();
    Quotient(written, pageSize);
    PutWord(buf, 12, 4, overflow);
    WordKept(m, buf[..], 12, 16, 8, 2, if isLeaf then LEAF_PAGE_FLAG else BRANCH_PAGE_FLAG);
    WordKept(m, buf[..], 12, 16, 10, 2, count);
  }

  lemma Quotient(written: nat, pageSize: nat)
    requires pageSize > 0
    ensures written / pageSize <= written
  {
    var q, r := written / pageSize, written % pageSize;
    assert written == pageSize * q + r;
    TimesAtLeast(pageSize, q);
  }

  lemma {:induction false} TimesAtLeast(a: nat, b: nat)
    requires a > 0
    ensures a * b >= b
  {
    if a > 1 {
      TimesAtLeast(a - 1, b);
      assert a * b == (a - 1) * b + b;
    }
  }

  // The elements in [start, end) with end before the last: what stays is written again from the front,
  // reading from the page that is written.
  method Rewrite(buf: array<Byte>, isLeaf: bool, start: nat, end: nat, count: nat, ghost inodes: seq<Inode>, ghost overflow: nat, ghost pageSize: nat)
    returns (written: nat)
    requires Clearable(buf[..], isLeaf, inodes, overflow, pageSize) && count == |inodes| && start < end < count
    modifies buf
    ensures var kept := AllAsRead(isLeaf, Kept(inodes, start, end));
      && Packed(buf[..], isLeaf, kept) && written == NodeSize(kept) <= buf.Length
      && PageHeader(buf[..], isLeaf, |kept|, overflow)
  {
    hide NodeSize, ElementAt, WordAt, DataAt, Encodable, ReadAt;
    ghost var kept := AllAsRead(isLeaf, Kept(inodes, start, end));
    PageIsLong(buf[..], inodes);
    var items := ReadInodeFromPage(buf, isLeaf, count, inodes);
    KeptIsMovable(buf[..], isLeaf, inodes, items, start, end);
    KeptIsSmaller(inodes, isLeaf, start, end);
    var left := Kept(items, start, end);
    ghost var m := buf[..];
    PutCount(buf, |left|, isLeaf, count, overflow);
    ghost var m1 := buf[..];
    StayMovable(m, m1, left, kept);
    KeptEncodable(isLeaf, inodes, start, end);
    written := WriteInodeToPage(buf, isLeaf, left, kept);
    HeaderUntouched(m1, buf[..], isLeaf, |kept|, overflow, written);
  }

  lemma PageIsLong(m: seq<Byte>, inodes: seq<Inode>)
    requires NodeSize(inodes) <= |m|
    ensures |m| >= PAGE_HEADER_SIZE
  {
  }

  lemma {:induction false} StayMovable(m: seq<Byte>, m': seq<Byte>, items: seq<Item>, inodes: seq<Inode>)
    requires Movable(m, items, inodes) && Outside(m, m', 10, 12)
    ensures Movable(m', items, inodes)
  {
    hide Outside;
    forall i | 0 <= i < |items| ensures MovableAt(m', items, inodes, i) {
      assert MovableAt(m, items, inodes, i);
      DataRises(inodes, |inodes|, 0, i);
      SameSlice(m, m', 10, 12, items[i].key);
      SameSlice(m, m', 10, 12, items[i].value);
    }
  }

  lemma HeaderUntouched(m: seq<Byte>, m': seq<Byte>, isLeaf: bool, count: nat, overflow: nat, written: nat)
    requires PageHeader(m, isLeaf, count, overflow) && Outside(m, m', PAGE_HEADER_SIZE, written)
    ensures PageHeader(m', isLeaf, count, overflow)
  {
    hide WordAt, Outside;
    WordKept(m, m', PAGE_HEADER_SIZE, written, 8, 2, if isLeaf then LEAF_PAGE_FLAG else BRANCH_PAGE_FLAG);
    WordKept(m, m', PAGE_HEADER_SIZE, written, 10, 2, count);
    WordKept(m, m', PAGE_HEADER_SIZE, written, 12, 4, overflow);
  }

  lemma KeptEncodable(isLeaf: bool, inodes: seq<Inode>, start: nat, end: nat)
    requires start <= end <= |inodes| && forall inode :: inode in inodes ==> Encodable(isLeaf, inode)
    ensures forall inode :: inode in AllAsRead(isLeaf, Kept(inodes, start, end)) ==> Encodable(isLeaf, inode)
  {
    var kept := Kept(inodes, start, end);
    forall i | 0 <= i < |kept| ensures Encodable(isLeaf, AsRead(isLeaf, kept[i])) {
      assert kept[i] == inodes[Origin(i, start, end)] && kept[i] in inodes;
    }
  }

  // The elements from start on: only the count and the overflow change.
  method Truncate(buf: array<Byte>, isLeaf: bool, start: nat, count: nat, ghost inodes: seq<Inode>, ghost overflow: nat, ghost pageSize: nat)
    returns (written: nat)
    requires Clearable(buf[..], isLeaf, inodes, overflow, pageSize) && count == |inodes| && start < count
    modifies buf
    ensures var kept := AllAsRead(isLeaf, Kept(inodes, start, count));
      && written == NodeSize(kept) <= buf.Length
      && StillThere(buf[..], isLeaf, inodes, count)
      && PageHeader(buf[..], isLeaf, start, overflow)
  {
    hide NodeSize, ElementAt, WordAt, DataAt, Encodable, ReadAt, Outside;
    ghost var kept := AllAsRead(isLeaf, Kept(inodes, start, count));
    PageIsLong(buf[..], inodes);
    var items := ReadInodeFromPage(buf, isLeaf, count, inodes);
    KeptIsSmaller(inodes, isLeaf, start, count);
    ghost var m := buf[..];
    PutCount(buf, start, isLeaf, count, overflow);
    StayPacked(m, buf[..], 10, 12, isLeaf, inodes);
    forall i | 0 <= i < start ensures items[i].Size() == |kept[i].key| + |kept[i].value| {
      ReadSize(m, isLeaf, DataAt(inodes, count, i), inodes[i], items[i]);
      assert kept[i] == AsRead(isLeaf, inodes[i]);
    }
    written := UsedSpaceInPage(items[..start], kept);
  }

  lemma ReadSize(m: seq<Byte>, isLeaf: bool, d: nat, inode: Inode, item: Item)
    requires ReadAt(m, isLeaf, d, inode, item)
    ensures item.Size() == |AsRead(isLeaf, inode).key| + |AsRead(isLeaf, inode).value|
  {
  }

  lemma {:induction false} StayPacked(m: seq<Byte>, m': seq<Byte>, a: nat, b: nat, isLeaf: bool, inodes: seq<Inode>)
    requires Packed(m, isLeaf, inodes) && Outside(m, m', a, b) && b <= PAGE_HEADER_SIZE
    ensures Packed(m', isLeaf, inodes)
  {
    hide ElementAt, Outside;
    forall i | 0 <= i < |inodes| ensures ElementOf(m', isLeaf, inodes, i) {
      assert ElementOf(m, isLeaf, inodes, i);
      DataRises(inodes, |inodes|, 0, i);
      ElementKept(m, m', a, b, isLeaf, i, DataAt(inodes, |inodes|, i), inodes[i]);
    }
  }

  // UsedSpaceInPage.
  method UsedSpaceInPage(items: seq<Item>, ghost inodes: seq<Inode>) returns (off: nat)
    requires |items| == |inodes|
    requires forall i :: 0 <= i < |items| ==> items[i].Size() == |inodes[i].key| + |inodes[i].value|
    ensures off == NodeSize(inodes)
  {
    EndsAtSize(inodes);
    off := Element(|items|);
    for i := 0 to |items|
      invariant off == DataAt(inodes, |inodes|, i)
    {
      off := off + items[i].Size();
    }
  }

  // ClearPageElements, up to the file accesses: datasz is how much of the page is written back.
  method ClearPageElements(buf: array<Byte>, start: int, end: int, abandonFreelist: bool, pageSize: nat,
      ghost flags: nat, ghost inodes: seq<Inode>, ghost overflow: nat)
    returns (outcome: Outcome, datasz: nat)
    requires buf.Length >= PAGE_HEADER_SIZE && WordAt(buf[..], 8, 2, flags)
    requires flags in {BRANCH_PAGE_FLAG, LEAF_PAGE_FLAG} ==> Clearable(buf[..], flags == LEAF_PAGE_FLAG, inodes, overflow, pageSize)
    modifies buf
    ensures !outcome.Cleared? ==> buf[..] == old(buf[..])
    ensures outcome.WrongPageType? <==> flags !in {BRANCH_PAGE_FLAG, LEAF_PAGE_FLAG}
    ensures flags in {BRANCH_PAGE_FLAG, LEAF_PAGE_FLAG} ==>
      && (outcome.NothingToClear? <==> inodes == [])
      && (outcome.StartOutOfRange? <==> inodes != [] && !(0 <= start < |inodes|))
      && (outcome.EndOutOfRange? <==> 0 <= start < |inodes| && end != -1 && !(0 <= end <= |inodes|))
      && (outcome.StartAfterEnd? <==> 0 <= start < |inodes| && 0 <= end < start)
      && (outcome.NoElements? <==> 0 <= start < |inodes| && end == start)
    ensures outcome.Cleared? ==> 0 <= start < |inodes| && (end == -1 || start < end <= |inodes|)
    ensures outcome.Cleared? ==>
      var isLeaf := flags == LEAF_PAGE_FLAG;
      var kept := AllAsRead(isLeaf, Kept(inodes, start, if end == -1 then |inodes| else end));
      && datasz == pageSize * (OverflowFor(NodeSize(kept), pageSize) + 1) <= buf.Length
      && PageHeader(buf[..], isLeaf, |kept|, OverflowFor(NodeSize(kept), pageSize))
      && outcome.needsFreelist == (!abandonFreelist && (overflow != OverflowFor(NodeSize(kept), pageSize) || !isLeaf))
      && (0 <= end < |inodes| ==> Packed(buf[..datasz], isLeaf, kept))
      && (start > 0 && !(0 <= end < |inodes|) ==>
        (StillThere(buf[..datasz], isLeaf, inodes, start) <==> DataAt(inodes, |inodes|, start) <= datasz))
  {
    datasz := 0;
    var typ := ReadWord(buf, 8, 2, flags);
    if typ != LEAF_PAGE_FLAG && typ != BRANCH_PAGE_FLAG { return WrongPageType, 0; }
    var isLeaf := typ == LEAF_PAGE_FLAG;
    var elementCnt := ReadWord(buf, 10, 2, |inodes|);
    if elementCnt == 0 { return NothingToClear, 0; }
    if start < 0 || start >= elementCnt { return StartOutOfRange, 0; }
    if (end < 0 || end > elementCnt) && end != -1 { return EndOutOfRange, 0; }
    if start > end && end != -1 { return StartAfterEnd, 0; }
    if start == end { return NoElements, 0; }
    var preOverflow := ReadWord(buf, 12, 4, overflow);
    var needsFreelist;
    datasz, needsFreelist := ClearElements(buf, isLeaf, start, if end == -1 then elementCnt else end, elementCnt, preOverflow, pageSize, inodes);
    return Cleared(needsFreelist && !abandonFreelist), datasz;
  }

  // The part after the checks.
  method ClearElements(buf: array<Byte>, isLeaf: bool, start: nat, end: nat, count: nat, preOverflow: nat, pageSize: nat, ghost inodes: seq<Inode>)
    returns (datasz: nat, changed: bool)
    requires Clearable(buf[..], isLeaf, inodes, preOverflow, pageSize) && count == |inodes| && start < end <= count
    modifies buf
    ensures var kept := AllAsRead(isLeaf, Kept(inodes, start, end));
      var overflow := OverflowFor(NodeSize(kept), pageSize);
      && datasz == pageSize * (overflow + 1) <= buf.Length
      && PageHeader(buf[..], isLeaf, |kept|, overflow)
      && changed == (preOverflow != overflow || !isLeaf)
      && (end < count ==> Packed(buf[..datasz], isLeaf, kept))
      && (start > 0 && end == count ==>
        (StillThere(buf[..datasz], isLeaf, inodes, start) <==> DataAt(inodes, count, start) <= datasz))
  {
    hide NodeSize, ElementAt, WordAt, DataAt, Encodable, ReadAt, Outside, ElementOf, OverflowFor;
    ghost var kept := AllAsRead(isLeaf, Kept(inodes, start, end));
    PageIsLong(buf[..], inodes);
    var dataWritten;
    if end == count {
      dataWritten := Truncate(buf, isLeaf, start, count, inodes, preOverflow, pageSize);
    } else {
      dataWritten := Rewrite(buf, isLeaf, start, end, count, inodes, preOverflow, pageSize);
    }
    ghost var m := buf[..];
    SizeIsPositive(kept);
    var overflow := PutOverflow(buf, dataWritten, pageSize, isLeaf, |kept|, preOverflow);
    datasz := pageSize * (overflow + 1);
    OverflowSuffices(dataWritten, pageSize, preOverflow + 1);
    changed := preOverflow != overflow || !isLeaf;
    if end == count {
      StayPacked(m, buf[..], 12, 16, isLeaf, inodes);
      if start > 0 { TailSurvives(buf[..], isLeaf, inodes, start, datasz); }
    } else {
      StayPacked(m, buf[..], 12, 16, isLeaf, kept);
      PackedPrefix(buf[..], isLeaf, kept, datasz);
    }
  }

  lemma SizeIsPositive(inodes: seq<Inode>)
    ensures NodeSize(inodes) > 0
  {
  }

  // Cutting off the tail counts the headers of the elements that stay, but leaves their data behind the
  // headers of all. So on each page of 256 items that starts with a small one, cutting off all but that one
  // writes back a page without its data.
  lemma {:induction false} TailCanBeLost(m: seq<Byte>, inodes: seq<Inode>, overflow: nat)
    requires Clearable(m, true, inodes, overflow, 4096)
    requires |inodes| == 256 && |inodes[0].key| == 1 && inodes[0].value == []
    ensures var size := 4096 * (OverflowFor(NodeSize(AllAsRead(true, Kept(inodes, 1, 256))), 4096) + 1);
      size == 4096 <= |m| && !StillThere(m[..size], true, inodes, 1)
  {
    hide Packed, Encodable, WordAt, ElementAt;
    var kept := AllAsRead(true, Kept(inodes, 1, 256));
    assert |kept| == 1 && kept[..0] == [];
    assert NodeSize(kept) == 33;
    assert DataAt(inodes, 256, 0) == Element(256);
    TailSurvives(m, true, inodes, 1, 4096);
  }

  // There is such a page, and ClearPageElements accepts it.
  method LoseTail() returns (buf: array<Byte>, inodes: seq<Inode>, outcome: Outcome, datasz: nat)
    ensures |inodes| == 256 && outcome.Cleared? && datasz <= buf.Length
    ensures !StillThere(buf[..datasz], true, inodes, 1)
  {
    hide Packed, Encodable, WordAt, ElementAt, NodeSize, Outside, DataAt, OverflowFor, Limit;
    var item := Inode(0, 0, [7], []);
    inodes := seq(256, i => item);
    var items := seq(256, i => Item(0, 0, Own([7]), Own([])));
    buf := new Byte[8192];
    SmallLimit();
    Limits();
    PutWord(buf, 8, 2, LEAF_PAGE_FLAG);
    ghost var m := buf[..];
    PutWord(buf, 10, 2, 256);
    WordKept(m, buf[..], 10, 12, 8, 2, LEAF_PAGE_FLAG);
    m := buf[..];
    PutWord(buf, 12, 4, 1);
    WordKept(m, buf[..], 12, 16, 8, 2, LEAF_PAGE_FLAG);
    WordKept(m, buf[..], 12, 16, 10, 2, 256);
    m := buf[..];
    ManySmallItems(m, inodes, items);
    var written := WriteInodeToPage(buf, true, items, inodes);
    HeaderUntouched(m, buf[..], true, 256, 1, written);
    outcome, datasz := ClearPageElements(buf, 1, -1, false, 4096, LEAF_PAGE_FLAG, inodes, 1);
    OneKept(inodes);
  }

  lemma {:induction false} ManySmallItems(m: seq<Byte>, inodes: seq<Inode>, items: seq<Item>)
    requires inodes == seq(256, i => Inode(0, 0, [7], [])) && items == seq(256, i => Item(0, 0, Own([7]), Own([])))
    ensures Movable(m, items, inodes) && NodeSize(inodes) == 4368
    ensures forall inode :: inode in inodes ==> Encodable(true, inode)
  {
    SmallItemsSize(inodes, 256);
    assert inodes[..256] == inodes;
  }

  lemma {:induction false} SmallItemsSize(inodes: seq<Inode>, i: nat)
    requires i <= |inodes| && forall inode :: inode in inodes ==> inode == Inode(0, 0, [7], [])
    ensures NodeSize(inodes[..i]) == 16 + 17 * i
  {
    if i == 0 {
      assert inodes[..0] == [];
    } else {
      NodeSizeStep(inodes, i - 1);
      SmallItemsSize(inodes, i - 1);
      assert inodes[i - 1] in inodes;
    }
  }

  lemma {:induction false} OneKept(inodes: seq<Inode>)
    requires |inodes| == 256 && |inodes[0].key| == 1 && inodes[0].value == []
    ensures OverflowFor(NodeSize(AllAsRead(true, Kept(inodes, 1, 256))), 4096) == 0 && DataAt(inodes, 256, 1) > 4096
  {
    var kept := AllAsRead(true, Kept(inodes, 1, 256));
    assert |kept| == 1 && kept[..0] == [];
    assert NodeSize(kept) == 33;
    assert DataAt(inodes, 256, 0) == Element(256);
  }
}
