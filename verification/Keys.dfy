// Keys are byte strings in the order of bytes.Compare.
module Keys {
  import opened Options

  type Byte = b: nat | b < 256
  type Key = seq<Byte>

  // bytes.Compare(a, b) == -1.
  predicate Less(a: Key, b: Key) {
    b != [] && (a == [] || a[0] < b[0] || (a[0] == b[0] && Less(a[1..], b[1..])))
  }

  // bytes.Compare.
  function Compare(a: Key, b: Key): int {
    if a == b then 0 else if Less(a, b) then -1 else 1
  }

  predicate AtMost(a: Key, b: Key) {
    a == b || Less(a, b)
  }

  // Up to index k the keys are the same, and there the first one ends or has the smaller byte.
  ghost predicate FirstAt(a: Key, b: Key, k: nat) {
    && k <= |a| && k <= |b| && a[..k] == b[..k]
    && k < |b| && (k == |a| || a[k] < b[k])
  }

  // The order of bytes.Compare: the first byte that differs decides; without one, the shorter key is less.
  lemma {:induction false} LessIsLexicographic(a: Key, b: Key)
    ensures Less(a, b) <==> exists k: nat ::
      k <= |a| && k < |b| && a[..k] == b[..k] && (k == |a| || a[k] < b[k])
  {
    if Less(a, b) {
      var k := FirstDifference(a, b);
      assert FirstAt(a, b, k);
      assert a[..k] == b[..k];
    } else {
      forall k: nat | k <= |a| && k < |b| && a[..k] == b[..k] ensures !(k == |a| || a[k] < b[k]) {
        if FirstAt(a, b, k) { SmallerThere(a, b, k); }
      }
    }
  }

  lemma {:induction false} FirstDifference(a: Key, b: Key) returns (k: nat)
    requires Less(a, b)
    ensures FirstAt(a, b, k)
  {
    if a == [] || a[0] < b[0] {
      k := 0;
    } else {
      k := FirstDifference(a[1..], b[1..]);
      assert a[..k + 1] == [a[0]] + a[1..][..k] && b[..k + 1] == [b[0]] + b[1..][..k];
      k := k + 1;
    }
  }

  lemma {:induction false} SmallerThere(a: Key, b: Key, k: nat)
    requires FirstAt(a, b, k)
    ensures Less(a, b)
    decreases k
  {
    if k > 0 {
      assert a[..k][0] == a[0] && b[..k][0] == b[0];
      assert a[1..][..k - 1] == a[..k][1..] && b[1..][..k - 1] == b[..k][1..];
      SmallerThere(a[1..], b[1..], k - 1);
    }
  }

  lemma {:induction false} LessIsStrict(a: Key, b: Key)
    requires Less(a, b)
    ensures a != b && !Less(b, a)
  {
    if a != [] && a[0] == b[0] { LessIsStrict(a[1..], b[1..]); }
  }

  lemma {:induction false} LessIsTotal(a: Key, b: Key)
    ensures a == b || Less(a, b) || Less(b, a)
  {
    if a != [] && b != [] && a[0] == b[0] {
      LessIsTotal(a[1..], b[1..]);
      assert a == [a[0]] + a[1..] && b == [b[0]] + b[1..];
    }
  }

  lemma {:induction false} LessIsTransitive(a: Key, b: Key, c: Key)
    requires Less(a, b) && Less(b, c)
    ensures Less(a, c)
  {
    if a != [] && a[0] == b[0] == c[0] { LessIsTransitive(a[1..], b[1..], c[1..]); }
  }

  // The order of three keys, in the mixed forms that the trees use.
  lemma Chain(a: Key, b: Key, c: Key)
    ensures Less(a, b) && AtMost(b, c) ==> Less(a, c)
    ensures AtMost(a, b) && Less(b, c) ==> Less(a, c)
    ensures AtMost(a, b) && AtMost(b, c) ==> AtMost(a, c)
    ensures !Less(a, b) <==> AtMost(b, a)
  {
    if Less(a, b) && Less(b, c) { LessIsTransitive(a, b, c); }
    LessIsTotal(a, b);
    if Less(a, b) { LessIsStrict(a, b); }
    if Less(b, a) { LessIsStrict(b, a); }
  }

  // Bounds that may be missing: closed below, open above.
  ghost predicate AtLeast(key: Key, bound: Option<Key>) {
    bound.Some? ==> AtMost(bound.value, key)
  }

  ghost predicate Beneath(key: Key, bound: Option<Key>) {
    bound.Some? ==> Less(key, bound.value)
  }

  ghost predicate Ascending(s: seq<Key>) {
    forall i, j :: 0 <= i < j < |s| ==> Less(s[i], s[j])
  }

  // Neighbours in order are enough.
  lemma {:induction false} NeighboursAscend(s: seq<Key>)
    requires forall i :: 0 < i < |s| ==> Less(s[i - 1], s[i])
    ensures Ascending(s)
  {
    forall i, j | 0 <= i < j < |s| ensures Less(s[i], s[j]) {
      LaterIsGreater(s, i, j);
    }
  }

  lemma {:induction false} LaterIsGreater(s: seq<Key>, i: nat, j: nat)
    requires i < j < |s| && forall k :: 0 < k < |s| ==> Less(s[k - 1], s[k])
    ensures Less(s[i], s[j])
    decreases j
  {
    if i < j - 1 {
      LaterIsGreater(s, i, j - 1);
      LessIsTransitive(s[i], s[j - 1], s[j]);
    }
  }

  // sort.Search for the first key that is not below the wanted one, and whether a probe hit it.
  method SearchKeys(keys: seq<Key>, key: Key) returns (index: nat, exact: bool)
    requires Ascending(keys)
    ensures index <= |keys|
    ensures forall i :: 0 <= i < index ==> Less(keys[i], key)
    ensures forall i :: index <= i < |keys| ==> AtMost(key, keys[i])
    ensures exact <==> index < |keys| && keys[index] == key
  {
    var i, j := 0, |keys|;
    exact := false;
    while i < j
      invariant 0 <= i <= j <= |keys|
      invariant forall k :: 0 <= k < i ==> Less(keys[k], key)
      invariant forall k :: j <= k < |keys| ==> AtMost(key, keys[k])
      invariant exact <==> j < |keys| && keys[j] == key
    {
      var h := (i + j) / 2;
      var ret := Compare(keys[h], key);
      if ret == 0 { exact := true; }
      if ret == -1 {
        forall k | i <= k < h ensures Less(keys[k], key) { LessIsTransitive(keys[k], keys[h], key); }
        i := h + 1;
      } else {
        Chain(keys[h], key, key);
        if j < |keys| { LessIsStrict(keys[h], keys[j]); Chain(key, keys[h], keys[j]); }
        forall k | h <= k < j ensures AtMost(key, keys[k]) { Chain(key, keys[h], keys[k]); }
        j := h;
      }
    }
    index := i;
  }
}
