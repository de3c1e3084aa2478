// Inodes on a page (environment/bbolt/internal/common/inode.go, environment/bbolt/internal/common/page.go):
// element headers of sixteen bytes after the page header, then the keys and values, each at a position
// relative to its element.
module InodePages {
  import opened Inodes
  import opened Keys
  import opened Nodes
  import opened PageIds

  // Little-endian words.
  function Value(bytes: seq<Byte>): nat {
    if bytes == [] then 0 else bytes[0] + 256 * Value(bytes[1..])
  }

  function Limit(width: nat): nat {
    if width == 0 then 1 else 256 * Limit(width - 1)
  }

  ghost predicate WordAt(m: seq<Byte>, off: nat, width: nat, n: nat) {
    off + width <= |m| && Value(m[off..off + width]) == n
  }

  method PutWord(buf: array<Byte>, off: nat, width: nat, n: nat)
    requires off + width <= buf.Length && n < Limit(width)
    modifies buf
    ensures WordAt(buf[..], off, width, n) && Outside(old(buf[..]), buf[..], off, off + width)
    decreases width
  {
    if width > 0 {
      buf[off] := n % 256;
      PutWord(buf, off + 1, width - 1, n / 256);
      assert buf[..][off..off + width] == [buf[off]] + buf[..][off + 1..off + width];
    } else {
      assert buf[..][off..off] == [];
    }
  }

  method ReadWord(buf: array<Byte>, off: nat, width: nat, ghost n: nat) returns (word: nat)
    requires WordAt(buf[..], off, width, n)
    ensures word == n
  {
    word := Value(buf[off..off + width]);
    assert buf[off..off + width] == buf[..][off..off + width];
  }

  // All bytes but those of one or two stretches are the same.
  ghost predicate Outside(m: seq<Byte>, m': seq<Byte>, a: nat, b: nat) {
    |m| == |m'| && forall k :: 0 <= k < |m| && !(a <= k < b) ==> m'[k] == m[k]
  }

  ghost predicate OutsideBoth(m: seq<Byte>, m': seq<Byte>, a: nat, b: nat, c: nat, d: nat) {
    |m| == |m'| && forall k :: 0 <= k < |m| && !(a <= k < b) && !(c <= k < d) ==> m'[k] == m[k]
  }

  // Words elsewhere do not matter.
  lemma WordKept(m: seq<Byte>, m': seq<Byte>, a: nat, b: nat, off: nat, width: nat, n: nat)
    requires WordAt(m, off, width, n) && Outside(m, m', a, b) && (off + width <= a || b <= off)
    ensures WordAt(m', off, width, n)
  {
    assert m[off..off + width] == m'[off..off + width];
  }

  // A slice of bytes that may lie in the page itself.
  datatype Bytes = Own(data: seq<Byte>) | Alias(off: nat, len: nat)
  {
    function Length(): nat {
      if Own? then |data| else len
    }

    ghost predicate Within(m: seq<Byte>) {
      Alias? ==> off + len <= |m|
    }

    ghost function In(m: seq<Byte>): (bytes: seq<Byte>)
      requires Within(m)
      ensures |bytes| == Length()
    {
      if Own? then data else m[off..off + len]
    }
  }

  datatype Item = Item(flags: nat, pgid: nat, key: Bytes, value: Bytes)
  {
    function Size(): nat {
      key.Length() + value.Length()
    }

    ghost predicate Within(m: seq<Byte>) {
      key.Within(m) && value.Within(m)
    }

    ghost function In(m: seq<Byte>): Inode
      requires Within(m)
    {
      Inode(flags, pgid, key.In(m), value.In(m))
    }
  }

  function Element(i: nat): nat {
    PAGE_HEADER_SIZE + PAGE_ELEMENT_SIZE * i
  }

  // Where the data of inode i goes on a page with n elements.
  ghost function DataAt(inodes: seq<Inode>, n: nat, i: nat): nat
    requires i <= |inodes|
  {
    if i == 0 then Element(n) else DataAt(inodes, n, i - 1) + |inodes[i - 1].key| + |inodes[i - 1].value|
  }

  // leafPageElement and branchPageElement.
  ghost predicate HeaderAt(m: seq<Byte>, isLeaf: bool, i: nat, pos: nat, inode: Inode) {
    if isLeaf then
      && WordAt(m, Element(i), 4, inode.flags) && WordAt(m, Element(i) + 4, 4, pos)
      && WordAt(m, Element(i) + 8, 4, |inode.key|) && WordAt(m, Element(i) + 12, 4, |inode.value|)
    else
      && WordAt(m, Element(i), 4, pos) && WordAt(m, Element(i) + 4, 4, |inode.key|)
      && WordAt(m, Element(i) + 8, 8, inode.pgid)
  }

  ghost predicate BytesAt(m: seq<Byte>, off: nat, bytes: seq<Byte>) {
    off + |bytes| <= |m| && m[off..off + |bytes|] == bytes
  }

  ghost predicate ElementAt(m: seq<Byte>, isLeaf: bool, i: nat, d: nat, inode: Inode) {
    && Element(i) + PAGE_ELEMENT_SIZE <= d
    && HeaderAt(m, isLeaf, i, d - Element(i), inode)
    && BytesAt(m, d, inode.key) && BytesAt(m, d + |inode.key|, inode.value)
  }

  ghost predicate ElementOf(m: seq<Byte>, isLeaf: bool, inodes: seq<Inode>, i: nat)
    requires i < |inodes|
  {
    ElementAt(m, isLeaf, i, DataAt(inodes, |inodes|, i), inodes[i])
  }

  // A page as it is written.
  ghost predicate Packed(m: seq<Byte>, isLeaf: bool, inodes: seq<Inode>) {
    forall i :: 0 <= i < |inodes| ==> ElementOf(m, isLeaf, inodes, i)
  }

  // ---- The layout, byte by byte ----

  // Words have their least byte first.
  function Word2(m: seq<Byte>, off: nat): nat
    requires off + 2 <= |m|
  {
    (m[off] as nat) + 0x100 * (m[off + 1] as nat)
  }

  function Word4(m: seq<Byte>, off: nat): nat
    requires off + 4 <= |m|
  {
    Word2(m, off) + 0x1_0000 * Word2(m, off + 2)
  }

  function Word8(m: seq<Byte>, off: nat): nat
    requires off + 8 <= |m|
  {
    Word4(m, off) + 0x1_0000_0000 * Word4(m, off + 4)
  }

  lemma WordIs(m: seq<Byte>, off: nat, n: nat)
    ensures WordAt(m, off, 2, n) <==> off + 2 <= |m| && n == Word2(m, off)
    ensures WordAt(m, off, 4, n) <==> off + 4 <= |m| && n == Word4(m, off)
    ensures WordAt(m, off, 8, n) <==> off + 8 <= |m| && n == Word8(m, off)
  {
    hide Word2, Word4, Value;
    if off + 2 <= |m| { ValueOf2(m, off); }
    if off + 4 <= |m| { ValueOf4(m, off); }
    if off + 8 <= |m| { ValueOf8(m, off); }
  }

  lemma ValueOf2(m: seq<Byte>, off: nat)
    requires off + 2 <= |m|
    ensures Value(m[off..off + 2]) == Word2(m, off)
  {
    var b := m[off..off + 2];
    assert b[1..][1..] == [];
    assert Value(b) == (b[0] as nat) + 0x100 * Value(b[1..]);
    assert Value(b[1..]) == (b[1] as nat) + 0x100 * Value(b[1..][1..]);
  }

  lemma ValueOf4(m: seq<Byte>, off: nat)
    requires off + 4 <= |m|
    ensures Value(m[off..off + 4]) == Word4(m, off)
  {
    var b := m[off..off + 4];
    ValueOf2(m, off + 2);
    assert b[1..][1..] == m[off + 2..off + 4];
    assert Value(b) == (b[0] as nat) + 0x100 * Value(b[1..]);
    assert Value(b[1..]) == (b[1] as nat) + 0x100 * Value(b[1..][1..]);
  }

  lemma ValueOf8(m: seq<Byte>, off: nat)
    requires off + 8 <= |m|
    ensures Value(m[off..off + 8]) == Word8(m, off)
  {
    var b := m[off..off + 8];
    ValueOf4(m, off + 4);
    assert b[1..][1..][1..][1..] == m[off + 4..off + 8];
    assert Value(b) == (b[0] as nat) + 0x100 * Value(b[1..]);
    assert Value(b[1..]) == (b[1] as nat) + 0x100 * Value(b[1..][1..]);
    assert Value(b[1..][1..]) == (b[2] as nat) + 0x100 * Value(b[1..][1..][1..]);
    assert Value(b[1..][1..][1..]) == (b[3] as nat) + 0x100 * Value(b[1..][1..][1..][1..]);
  }

  // A leaf on a page: sixteen bytes for each element after sixteen for the page, with the flags, the distance
  // from there to the key, the length of the key and that of the value, which follows the key.
  lemma LeafLayout(m: seq<Byte>, inodes: seq<Inode>, i: nat)
    requires Packed(m, true, inodes) && i < |inodes|
    ensures var e, inode := 16 + 16 * i, inodes[i];
      && e + 16 <= |m| && Word4(m, e) == inode.flags && Word4(m, e + 8) == |inode.key| && Word4(m, e + 12) == |inode.value|
      && var key := e + Word4(m, e + 4); var value := key + |inode.key|;
      value + |inode.value| <= |m| && m[key..value] == inode.key && m[value..value + |inode.value|] == inode.value
  {
    hide WordAt;
    assert ElementOf(m, true, inodes, i);
    var e, inode := 16 + 16 * i, inodes[i];
    var d := DataAt(inodes, |inodes|, i);
    WordIs(m, e, inode.flags);
    WordIs(m, e + 4, d - e);
    WordIs(m, e + 8, |inode.key|);
    WordIs(m, e + 12, |inode.value|);
  }

  // A branch on a page: the distance to the key, the length of the key, and the page id in eight bytes.
  lemma BranchLayout(m: seq<Byte>, inodes: seq<Inode>, i: nat)
    requires Packed(m, false, inodes) && i < |inodes|
    ensures var e, inode := 16 + 16 * i, inodes[i];
      && e + 16 <= |m| && Word4(m, e + 4) == |inode.key| && Word8(m, e + 8) == inode.pgid
      && var key := e + Word4(m, e);
      key + |inode.key| <= |m| && m[key..key + |inode.key|] == inode.key
  {
    hide WordAt;
    assert ElementOf(m, false, inodes, i);
    var e, inode := 16 + 16 * i, inodes[i];
    WordIs(m, e, DataAt(inodes, |inodes|, i) - e);
    WordIs(m, e + 4, |inode.key|);
    WordIs(m, e + 8, inode.pgid);
  }

  lemma {:induction false} DataRises(inodes: seq<Inode>, n: nat, i: nat, j: nat)
    requires i <= j <= |inodes|
    ensures DataAt(inodes, n, i) <= DataAt(inodes, n, j)
    ensures i < j ==> DataAt(inodes, n, i) + |inodes[i].key| + |inodes[i].value| <= DataAt(inodes, n, j)
    decreases j
  {
    if i < j - 1 { DataRises(inodes, n, i, j - 1); }
  }

  // The bytes written end where the size of the node says.
  lemma {:induction false} EndsAtSize(inodes: seq<Inode>)
    ensures DataAt(inodes, |inodes|, |inodes|) == NodeSize(inodes)
  {
    DataOfPrefix(inodes, |inodes|, |inodes|);
    assert inodes[..|inodes|] == inodes;
  }

  lemma {:induction false} DataOfPrefix(inodes: seq<Inode>, n: nat, i: nat)
    requires i <= |inodes|
    ensures DataAt(inodes, n, i) + PAGE_ELEMENT_SIZE * i == NodeSize(inodes[..i]) + PAGE_ELEMENT_SIZE * n
  {
    if i == 0 {
      assert inodes[..0] == [];
    } else {
      DataOfPrefix(inodes, n, i - 1);
      NodeSizeStep(inodes, i - 1);
    }
  }

  lemma HeaderKept(m: seq<Byte>, m': seq<Byte>, a: nat, b: nat, isLeaf: bool, i: nat, pos: nat, inode: Inode)
    requires HeaderAt(m, isLeaf, i, pos, inode) && Outside(m, m', a, b)
    requires Element(i) + PAGE_ELEMENT_SIZE <= a || b <= Element(i)
    ensures HeaderAt(m', isLeaf, i, pos, inode)
  {
    hide WordAt, Outside;
    if isLeaf {
      WordKept(m, m', a, b, Element(i), 4, inode.flags);
      WordKept(m, m', a, b, Element(i) + 4, 4, pos);
      WordKept(m, m', a, b, Element(i) + 8, 4, |inode.key|);
      WordKept(m, m', a, b, Element(i) + 12, 4, |inode.value|);
    } else {
      WordKept(m, m', a, b, Element(i), 4, pos);
      WordKept(m, m', a, b, Element(i) + 4, 4, |inode.key|);
      WordKept(m, m', a, b, Element(i) + 8, 8, inode.pgid);
    }
  }

  lemma BytesKept(m: seq<Byte>, m': seq<Byte>, a: nat, b: nat, off: nat, bytes: seq<Byte>)
    requires BytesAt(m, off, bytes) && Outside(m, m', a, b) && (off + |bytes| <= a || b <= off)
    ensures BytesAt(m', off, bytes)
  {
  }

  lemma ElementKept(m: seq<Byte>, m': seq<Byte>, a: nat, b: nat, isLeaf: bool, i: nat, d: nat, inode: Inode)
    requires ElementAt(m, isLeaf, i, d, inode) && Outside(m, m', a, b)
    requires Element(i) + PAGE_ELEMENT_SIZE <= a || b <= Element(i)
    requires d + |inode.key| + |inode.value| <= a || b <= d
    ensures ElementAt(m', isLeaf, i, d, inode)
  {
    hide HeaderAt, BytesAt, Outside;
    HeaderKept(m, m', a, b, isLeaf, i, d - Element(i), inode);
    BytesKept(m, m', a, b, d, inode.key);
    BytesKept(m, m', a, b, d + |inode.key|, inode.value);
  }

  // copy, within the page or into it: the source is read before the destination is written.
  method CopyBytes(buf: array<Byte>, src: Bytes, dst: nat)
    requires src.Within(buf[..]) && dst + src.Length() <= buf.Length
    modifies buf
    ensures BytesAt(buf[..], dst, src.In(old(buf[..]))) && Outside(old(buf[..]), buf[..], dst, dst + src.Length())
  {
    var data := if src.Own? then src.data else buf[src.off..src.off + src.len];
    assert data == src.In(buf[..]);
    forall k | dst <= k < dst + |data| { buf[k] := data[k - dst]; }
    assert buf[..][dst..dst + |data|] == data;
  }

  lemma Limits()
    ensures Limit(4) == 0x1_0000_0000 && Limit(8) == 0x1_0000_0000_0000_0000
  {
    assert Limit(2) == 0x1_0000;
    assert Limit(6) == 0x1_0000_0000_0000;
  }

  // What fits the fields of an element.
  ghost predicate Encodable(isLeaf: bool, inode: Inode) {
    inode.key != [] && if isLeaf then inode.flags < 0x1_0000_0000 else inode.pgid < 0x1_0000_0000_0000_0000
  }

  // A slice of the page that lies at or after a position, or bytes from elsewhere.
  ghost predicate NotBefore(b: Bytes, off: nat) {
    b.Alias? ==> b.off >= off
  }

  method WriteHeader(buf: array<Byte>, isLeaf: bool, i: nat, pos: nat, item: Item, ghost inode: Inode)
    requires Element(i) + PAGE_ELEMENT_SIZE <= buf.Length < 0x1_0000_0000 && pos < buf.Length
    requires item.flags == inode.flags && item.pgid == inode.pgid && Encodable(isLeaf, inode)
    requires item.key.Length() == |inode.key| < buf.Length && item.value.Length() == |inode.value| < buf.Length
    modifies buf
    ensures HeaderAt(buf[..], isLeaf, i, pos, inode)
    ensures Outside(old(buf[..]), buf[..], Element(i), Element(i) + PAGE_ELEMENT_SIZE)
  {
    hide Limit, WordAt;
    Limits();
    var e := Element(i);
    ghost var m0 := buf[..];
    if isLeaf {
      PutWord(buf, e + 4, 4, pos);
      ghost var m1 := buf[..];
      PutWord(buf, e, 4, item.flags);
      ghost var m2 := buf[..];
      WordKept(m1, m2, e, e + 4, e + 4, 4, pos);
      PutWord(buf, e + 8, 4, item.key.Length());
      ghost var m3 := buf[..];
      WordKept(m2, m3, e + 8, e + 12, e + 4, 4, pos);
      WordKept(m2, m3, e + 8, e + 12, e, 4, inode.flags);
      PutWord(buf, e + 12, 4, item.value.Length());
      WordKept(m3, buf[..], e + 12, e + 16, e + 4, 4, pos);
      WordKept(m3, buf[..], e + 12, e + 16, e, 4, inode.flags);
      WordKept(m3, buf[..], e + 12, e + 16, e + 8, 4, |inode.key|);
    } else {
      PutWord(buf, e, 4, pos);
      ghost var m1 := buf[..];
      PutWord(buf, e + 4, 4, item.key.Length());
      ghost var m2 := buf[..];
      WordKept(m1, m2, e + 4, e + 8, e, 4, pos);
      PutWord(buf, e + 8, 8, item.pgid);
      WordKept(m2, buf[..], e + 8, e + 16, e, 4, pos);
      WordKept(m2, buf[..], e + 8, e + 16, e + 4, 4, |inode.key|);
    }
  }

  // One element. Its own key and value may lie in the page, but not before the place they go to.
  method WriteElement(buf: array<Byte>, isLeaf: bool, i: nat, d: nat, item: Item, ghost inode: Inode)
    requires item.Within(buf[..]) && item.In(buf[..]) == inode && Encodable(isLeaf, inode)
    requires Element(i) + PAGE_ELEMENT_SIZE <= d && d + item.Size() <= buf.Length < 0x1_0000_0000
    requires NotBefore(item.key, d) && NotBefore(item.value, d + item.key.Length())
    modifies buf
    ensures ElementAt(buf[..], isLeaf, i, d, inode)
    ensures OutsideBoth(old(buf[..]), buf[..], Element(i), Element(i) + PAGE_ELEMENT_SIZE, d, d + item.Size())
  {
    hide HeaderAt, Outside, BytesAt, OutsideBoth, Encodable;
    ghost var e, end := Element(i), d + item.Size();
    ghost var m0 := buf[..];
    WriteHeader(buf, isLeaf, i, d - Element(i), item, inode);
    ghost var m1 := buf[..];
    SameSlice(m0, m1, e, e + PAGE_ELEMENT_SIZE, item.key);
    SameSlice(m0, m1, e, e + PAGE_ELEMENT_SIZE, item.value);
    WriteData(buf, d, item, inode);
    HeaderKept(m1, buf[..], d, end, isLeaf, i, d - Element(i), inode);
    TwoWrites(m0, m1, buf[..], e, e + PAGE_ELEMENT_SIZE, d, end);
  }

  // The key, and the value after it.
  method WriteData(buf: array<Byte>, d: nat, item: Item, ghost inode: Inode)
    requires item.Within(buf[..]) && item.In(buf[..]) == inode && d + item.Size() <= buf.Length
    requires NotBefore(item.key, d) && NotBefore(item.value, d + item.key.Length())
    modifies buf
    ensures BytesAt(buf[..], d, inode.key) && BytesAt(buf[..], d + |inode.key|, inode.value)
    ensures Outside(old(buf[..]), buf[..], d, d + item.Size())
  {
    hide Outside, BytesAt;
    ghost var k, end := d + item.key.Length(), d + item.Size();
    ghost var m1 := buf[..];
    CopyBytes(buf, item.key, d);
    ghost var m2 := buf[..];
    SameSlice(m1, m2, d, k, item.value);
    CopyBytes(buf, item.value, d + item.key.Length());
    BytesKept(m2, buf[..], k, end, d, inode.key);
    NextWrite(m1, m2, buf[..], d, k, end);
  }

  lemma SameSlice(m: seq<Byte>, m': seq<Byte>, a: nat, b: nat, s: Bytes)
    requires s.Within(m) && Outside(m, m', a, b) && NotBefore(s, b)
    ensures s.Within(m') && s.In(m') == s.In(m)
  {
  }

  lemma TwoWrites(m0: seq<Byte>, m1: seq<Byte>, m2: seq<Byte>, a: nat, b: nat, c: nat, d: nat)
    requires Outside(m0, m1, a, b) && Outside(m1, m2, c, d)
    ensures OutsideBoth(m0, m2, a, b, c, d)
  {
  }

  lemma NextWrite(m0: seq<Byte>, m1: seq<Byte>, m2: seq<Byte>, a: nat, b: nat, c: nat)
    requires Outside(m0, m1, a, b) && Outside(m1, m2, b, c) && a <= b <= c
    ensures Outside(m0, m2, a, c)
  {
  }

  // An item does not lie before the place it goes to.
  ghost predicate MovableAt(m: seq<Byte>, items: seq<Item>, inodes: seq<Inode>, i: nat)
    requires i < |items| == |inodes|
  {
    && items[i].Within(m) && items[i].In(m) == inodes[i]
    && NotBefore(items[i].key, DataAt(inodes, |inodes|, i))
    && NotBefore(items[i].value, DataAt(inodes, |inodes|, i) + |inodes[i].key|)
  }

  ghost predicate Movable(m: seq<Byte>, items: seq<Item>, inodes: seq<Inode>) {
    |items| == |inodes| && forall i :: 0 <= i < |items| ==> MovableAt(m, items, inodes, i)
  }

  // The elements so far, and the bytes not yet reached.
  ghost predicate PackedTo(m0: seq<Byte>, m: seq<Byte>, isLeaf: bool, inodes: seq<Inode>, i: nat)
    requires i <= |inodes|
  {
    && (forall j :: 0 <= j < i ==> ElementOf(m, isLeaf, inodes, j))
    && Outside(m0, m, PAGE_HEADER_SIZE, DataAt(inodes, |inodes|, i))
  }

  lemma NothingPacked(m: seq<Byte>, isLeaf: bool, inodes: seq<Inode>)
    ensures PackedTo(m, m, isLeaf, inodes, 0)
  {
  }

  lemma {:induction false} OnePacked(m0: seq<Byte>, m: seq<Byte>, m': seq<Byte>, isLeaf: bool, inodes: seq<Inode>, i: nat)
    requires i < |inodes| && PackedTo(m0, m, isLeaf, inodes, i) && ElementOf(m', isLeaf, inodes, i)
    requires OutsideBoth(m, m', Element(i), Element(i) + PAGE_ELEMENT_SIZE, DataAt(inodes, |inodes|, i), DataAt(inodes, |inodes|, i + 1))
    ensures PackedTo(m0, m', isLeaf, inodes, i + 1)
  {
    hide ElementOf, Outside, OutsideBoth, DataAt;
    forall j | 0 <= j < i ensures ElementOf(m', isLeaf, inodes, j) { EarlierKept(m, m', isLeaf, inodes, i, j); }
    DataStarts(inodes, i);
    OutsideFurther(m0, m, m', Element(i), DataAt(inodes, |inodes|, i), DataAt(inodes, |inodes|, i + 1));
  }

  lemma {:induction false} EarlierKept(m: seq<Byte>, m': seq<Byte>, isLeaf: bool, inodes: seq<Inode>, i: nat, j: nat)
    requires j < i < |inodes| && ElementOf(m, isLeaf, inodes, j)
    requires OutsideBoth(m, m', Element(i), Element(i) + PAGE_ELEMENT_SIZE, DataAt(inodes, |inodes|, i), DataAt(inodes, |inodes|, i + 1))
    ensures ElementOf(m', isLeaf, inodes, j)
  {
    hide ElementAt, OutsideBoth;
    var n := |inodes|;
    DataRises(inodes, n, 0, j);
    DataRises(inodes, n, j, i);
    DataRises(inodes, n, i, i + 1);
    KeptBoth(m, m', i, n, DataAt(inodes, n, i), DataAt(inodes, n, i + 1), isLeaf, j, DataAt(inodes, n, j), inodes[j]);
  }

  lemma {:induction false} DataStarts(inodes: seq<Inode>, i: nat)
    requires i < |inodes|
    ensures Element(i) + PAGE_ELEMENT_SIZE <= DataAt(inodes, |inodes|, i) <= DataAt(inodes, |inodes|, i + 1)
  {
    DataRises(inodes, |inodes|, 0, i);
    DataRises(inodes, |inodes|, i, i + 1);
  }

  lemma OutsideFurther(m0: seq<Byte>, m: seq<Byte>, m': seq<Byte>, e: nat, c: nat, d: nat)
    requires Outside(m0, m, PAGE_HEADER_SIZE, c) && OutsideBoth(m, m', e, e + PAGE_ELEMENT_SIZE, c, d)
    requires PAGE_HEADER_SIZE <= e && e + PAGE_ELEMENT_SIZE <= c <= d
    ensures Outside(m0, m', PAGE_HEADER_SIZE, d)
  {
  }

  lemma KeptBoth(m: seq<Byte>, m': seq<Byte>, i: nat, n: nat, c: nat, d: nat, isLeaf: bool, j: nat, at: nat, inode: Inode)
    requires ElementAt(m, isLeaf, j, at, inode) && j < i < n
    requires Element(n) <= at && at + |inode.key| + |inode.value| <= c <= d
    requires OutsideBoth(m, m', Element(i), Element(i) + PAGE_ELEMENT_SIZE, c, d)
    ensures ElementAt(m', isLeaf, j, at, inode)
  {
    hide ElementAt;
    var a, b := Element(i), Element(i) + PAGE_ELEMENT_SIZE;
    var mid := seq(|m|, k requires 0 <= k < |m| => if a <= k < b then m'[k] else m[k]);
    ElementKept(m, mid, a, b, isLeaf, j, at, inode);
    ElementKept(mid, m', c, d, isLeaf, j, at, inode);
  }

  // WriteInodeToPage, from own bytes or from bytes of the page itself.
  method WriteInodeToPage(buf: array<Byte>, isLeaf: bool, items: seq<Item>, ghost inodes: seq<Inode>) returns (off: nat)
    requires Movable(buf[..], items, inodes) && forall inode :: inode in inodes ==> Encodable(isLeaf, inode)
    requires NodeSize(inodes) <= buf.Length < 0x1_0000_0000
    modifies buf
    ensures Packed(buf[..], isLeaf, inodes) && off == NodeSize(inodes)
    ensures Outside(old(buf[..]), buf[..], PAGE_HEADER_SIZE, off)
  {
    hide NodeSize, Encodable, ElementAt, PackedTo, OutsideBoth, NotBefore, Outside;
    ghost var n, m0 := |inodes|, buf[..];
    EndsAtSize(inodes);
    NothingPacked(m0, isLeaf, inodes);
    off := Element(|items|);
    for i := 0 to |items|
      invariant off == DataAt(inodes, n, i) && PackedTo(m0, buf[..], isLeaf, inodes, i)
    {
      ghost var m := buf[..];
      StillMovable(m0, m, isLeaf, items, inodes, i);
      DataRises(inodes, n, 0, i);
      DataRises(inodes, n, i, n);
      WriteElement(buf, isLeaf, i, off, items[i], inodes[i]);
      OnePacked(m0, m, buf[..], isLeaf, inodes, i);
      off := off + items[i].Size();
    }
    AllPacked(m0, buf[..], isLeaf, inodes);
  }

  lemma AllPacked(m0: seq<Byte>, m: seq<Byte>, isLeaf: bool, inodes: seq<Inode>)
    requires PackedTo(m0, m, isLeaf, inodes, |inodes|)
    ensures Packed(m, isLeaf, inodes) && Outside(m0, m, PAGE_HEADER_SIZE, DataAt(inodes, |inodes|, |inodes|))
  {
  }

  lemma StillMovable(m0: seq<Byte>, m: seq<Byte>, isLeaf: bool, items: seq<Item>, inodes: seq<Inode>, i: nat)
    requires Movable(m0, items, inodes) && i < |inodes| && PackedTo(m0, m, isLeaf, inodes, i)
    ensures MovableAt(m, items, inodes, i)
  {
    hide ElementAt;
    assert MovableAt(m0, items, inodes, i);
    SameSlice(m0, m, PAGE_HEADER_SIZE, DataAt(inodes, |inodes|, i), items[i].key);
    SameSlice(m0, m, PAGE_HEADER_SIZE, DataAt(inodes, |inodes|, i), items[i].value);
  }

  // What a page gives back of an inode: flags, key and value of an item, page id and key of a child.
  function AsRead(isLeaf: bool, inode: Inode): Inode {
    if isLeaf then Inode(inode.flags, 0, inode.key, inode.value) else Inode(0, inode.pgid, inode.key, [])
  }

  // An item that ReadInodeFromPage returns: it points into the page.
  ghost predicate ReadAt(m: seq<Byte>, isLeaf: bool, d: nat, inode: Inode, item: Item) {
    && item.Within(m) && item.In(m) == AsRead(isLeaf, inode)
    && item.key.Alias? && item.value.Alias? && item.key.off == d && item.value.off == d + |inode.key|
  }

  // ReadInodeFromPage.
  method ReadInodeFromPage(buf: array<Byte>, isLeaf: bool, count: nat, ghost inodes: seq<Inode>) returns (items: seq<Item>)
    requires count == |inodes| && Packed(buf[..], isLeaf, inodes)
    ensures |items| == count
    ensures forall i :: 0 <= i < count ==> ReadAt(buf[..], isLeaf, DataAt(inodes, count, i), inodes[i], items[i])
  {
    hide ElementAt, ReadAt, DataAt;
    items := [];
    for i := 0 to count
      invariant |items| == i
      invariant forall j :: 0 <= j < i ==> ReadAt(buf[..], isLeaf, DataAt(inodes, count, j), inodes[j], items[j])
    {
      assert ElementOf(buf[..], isLeaf, inodes, i);
      var item := ReadElement(buf, isLeaf, i, DataAt(inodes, count, i), inodes[i]);
      items := items + [item];
    }
  }

  method ReadElement(buf: array<Byte>, isLeaf: bool, i: nat, ghost d: nat, ghost inode: Inode) returns (item: Item)
    requires ElementAt(buf[..], isLeaf, i, d, inode)
    ensures ReadAt(buf[..], isLeaf, d, inode, item)
  {
    hide WordAt;
    var e := Element(i);
    if isLeaf {
      var flags := ReadWord(buf, e, 4, inode.flags);
      var pos := ReadWord(buf, e + 4, 4, d - e);
      var ksize := ReadWord(buf, e + 8, 4, |inode.key|);
      var vsize := ReadWord(buf, e + 12, 4, |inode.value|);
      item := Item(flags, 0, Alias(e + pos, ksize), Alias(e + pos + ksize, vsize));
    } else {
      var pos := ReadWord(buf, e, 4, d - e);
      var ksize := ReadWord(buf, e + 4, 4, |inode.key|);
      var pgid := ReadWord(buf, e + 8, 8, inode.pgid);
      item := Item(0, pgid, Alias(e + pos, ksize), Alias(e + pos + ksize, 0));
    }
  }

  // Writing and reading back.
  method RoundTrip(buf: array<Byte>, isLeaf: bool, inodes: seq<Inode>) returns (items: seq<Item>)
    requires forall inode :: inode in inodes ==> Encodable(isLeaf, inode)
    requires NodeSize(inodes) <= buf.Length < 0x1_0000_0000
    modifies buf
    ensures |items| == |inodes|
    ensures forall i :: 0 <= i < |inodes| ==> items[i].Within(buf[..]) && var read, inode := items[i].In(buf[..]), inodes[i];
      read == if isLeaf then Inode(inode.flags, 0, inode.key, inode.value) else Inode(0, inode.pgid, inode.key, [])
  {
    var own := seq(|inodes|, i requires 0 <= i < |inodes| =>
      Item(inodes[i].flags, inodes[i].pgid, Own(inodes[i].key), Own(inodes[i].value)));
    forall i | 0 <= i < |inodes| ensures MovableAt(buf[..], own, inodes, i) { }
    var _ := WriteInodeToPage(buf, isLeaf, own, inodes);
    items := ReadInodeFromPage(buf, isLeaf, |inodes|, inodes);
  }
}
