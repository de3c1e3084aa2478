// The inode of environment/bbolt/internal/common/inode.go: an item of a leaf, with its flags and
// value, or a child of a branch, with its page id.
module Inodes {
  import opened Keys

  datatype Inode = Inode(flags: nat, pgid: nat, key: Key, value: seq<Byte>)

  const BUCKET_LEAF_FLAG := 1

  function InodeKeys(inodes: seq<Inode>): (keys: seq<Key>)
    ensures |keys| == |inodes|
  {
    seq(|inodes|, i requires 0 <= i < |inodes| => inodes[i].key)
  }

  ghost predicate AllBelow(inodes: seq<Inode>, key: Key) {
    forall inode :: inode in inodes ==> Less(inode.key, key)
  }

  ghost predicate AllFrom(inodes: seq<Inode>, key: Key) {
    forall inode :: inode in inodes ==> AtMost(key, inode.key)
  }

  ghost predicate AllAbove(inodes: seq<Inode>, key: Key) {
    forall inode :: inode in inodes ==> Less(key, inode.key)
  }

  lemma Slices(inodes: seq<Inode>, i: nat, j: nat)
    requires Ascending(InodeKeys(inodes)) && i <= j <= |inodes|
    ensures Ascending(InodeKeys(inodes[i..j]))
  {
    var keys := InodeKeys(inodes[i..j]);
    forall m, n | 0 <= m < n < |keys| ensures Less(keys[m], keys[n]) {
      assert InodeKeys(inodes)[i + m] == keys[m] && InodeKeys(inodes)[i + n] == keys[n];
    }
  }

  lemma AscendingConcat(left: seq<Inode>, right: seq<Inode>)
    requires Ascending(InodeKeys(left)) && Ascending(InodeKeys(right))
    requires forall a, b :: a in left && b in right ==> Less(a.key, b.key)
    ensures Ascending(InodeKeys(left + right))
  {
    var keys := InodeKeys(left + right);
    forall i, j | 0 <= i < j < |keys| ensures Less(keys[i], keys[j]) {
      if j < |left| {
        assert keys[i] == InodeKeys(left)[i] && keys[j] == InodeKeys(left)[j];
      } else if i >= |left| {
        assert keys[i] == InodeKeys(right)[i - |left|] && keys[j] == InodeKeys(right)[j - |left|];
      } else {
        assert keys[i] == left[i].key && keys[j] == right[j - |left|].key;
        assert left[i] in left && right[j - |left|] in right;
      }
    }
  }

  lemma AscendingJoin(left: seq<Inode>, right: seq<Inode>, key: Key)
    requires Ascending(InodeKeys(left)) && Ascending(InodeKeys(right))
    requires AllBelow(left, key) && AllFrom(right, key)
    ensures Ascending(InodeKeys(left + right))
  {
    forall a, b | a in left && b in right ensures Less(a.key, b.key) { Chain(a.key, key, b.key); }
    AscendingConcat(left, right);
  }

  // How many inodes lie below a key, counted from the start.
  ghost function Rank(inodes: seq<Inode>, key: Key): (n: nat)
    ensures n <= |inodes|
  {
    if inodes == [] || !Less(inodes[0].key, key) then 0 else 1 + Rank(inodes[1..], key)
  }

  lemma {:induction false} RankOfSplit(below: seq<Inode>, rest: seq<Inode>, key: Key)
    requires AllBelow(below, key) && AllFrom(rest, key)
    ensures Rank(below + rest, key) == |below| && (below + rest)[|below|..] == rest
  {
    if below == [] {
      assert below + rest == rest;
      if rest != [] { assert rest[0] in rest; Chain(rest[0].key, key, key); }
    } else {
      assert below[0] in below;
      assert (below + rest)[1..] == below[1..] + rest;
      RankOfSplit(below[1..], rest, key);
    }
  }
}
