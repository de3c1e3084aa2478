// Compact of environment/bbolt/compact.go: a walk over the nested buckets of one database that puts each
// item into another, with commits in between.
module Compact {
  import opened Keys
  import opened Options

  // A value, or a nested bucket with its sequence. The entries of a bucket are in key order.
  datatype Entry = Value(bytes: seq<Byte>) | Sub(sequence: nat, entries: seq<Pair>)

  datatype Pair = Pair(key: Key, entry: Entry)

  // The keys of every bucket ascend.
  ghost predicate InOrder(e: Entry) {
    e.Sub? ==> PairsInOrder(e.entries)
  }

  ghost predicate PairsInOrder(pairs: seq<Pair>) {
    && (forall i, j :: 0 <= i < j < |pairs| ==> Less(pairs[i].key, pairs[j].key))
    && (forall i :: 0 <= i < |pairs| ==> InOrder(pairs[i].entry))
  }

  // The place of a key.
  function Place(pairs: seq<Pair>, key: Key): (n: nat)
    ensures n <= |pairs|
  {
    if pairs == [] || !Less(pairs[0].key, key) then 0 else 1 + Place(pairs[1..], key)
  }

  function Has(pairs: seq<Pair>, key: Key): bool {
    var n := Place(pairs, key);
    n < |pairs| && pairs[n].key == key
  }

  // Putting an entry under a key: in the place of the old one, or between its neighbours.
  function Put(pairs: seq<Pair>, key: Key, entry: Entry): seq<Pair> {
    var n := Place(pairs, key);
    pairs[..n] + [Pair(key, entry)] + pairs[if Has(pairs, key) then n + 1 else n..]
  }

  // The bucket at the end of a path of keys.
  function At(e: Entry, path: seq<Key>): Option<Entry> {
    if path == [] then Some(e)
    else if e.Sub? && Has(e.entries, path[0]) then At(e.entries[Place(e.entries, path[0])].entry, path[1..])
    else None
  }

  ghost predicate IsBucket(e: Entry, path: seq<Key>) {
    At(e, path).Some? && At(e, path).value.Sub?
  }

  // Putting an entry into the bucket at the end of a path.
  function PutAt(e: Entry, path: seq<Key>, key: Key, entry: Entry): Entry
    requires IsBucket(e, path)
    decreases |path|
  {
    if path == [] then Sub(e.sequence, Put(e.entries, key, entry))
    else
      var n := Place(e.entries, path[0]);
      Sub(e.sequence, e.entries[n := Pair(path[0], PutAt(e.entries[n].entry, path[1..], key, entry))])
  }

  // What is put under a path is found there.
  lemma {:induction false} PutIsFound(pairs: seq<Pair>, key: Key, entry: Entry)
    ensures var after := Put(pairs, key, entry);
      Place(after, key) == Place(pairs, key) && Has(after, key) && after[Place(after, key)] == Pair(key, entry)
  {
    Irreflexive(key);
    PlacePrefix(pairs, Put(pairs, key, entry), key);
  }

  // The place depends on the smaller keys before it only.
  lemma {:induction false} PlacePrefix(pairs: seq<Pair>, after: seq<Pair>, key: Key)
    requires Place(pairs, key) < |after| && after[..Place(pairs, key)] == pairs[..Place(pairs, key)]
    requires !Less(after[Place(pairs, key)].key, key)
    ensures Place(after, key) == Place(pairs, key)
  {
    var n := Place(pairs, key);
    if n > 0 {
      assert after[0] == after[..n][0] == pairs[..n][0] == pairs[0];
      assert after[1..][..n - 1] == after[..n][1..] == pairs[..n][1..] == pairs[1..][..n - 1];
      assert after[1..][n - 1] == after[n];
      PlacePrefix(pairs[1..], after[1..], key);
    }
  }

  lemma {:induction false} FoundThere(e: Entry, path: seq<Key>, key: Key, entry: Entry)
    requires IsBucket(e, path)
    ensures At(PutAt(e, path, key, entry), path + [key]) == Some(entry)
    ensures IsBucket(PutAt(e, path, key, entry), path)
    decreases |path|
  {
    var after := PutAt(e, path, key, entry);
    if path == [] {
      PutIsFound(e.entries, key, entry);
      assert ([] + [key])[0] == key && ([] + [key])[1..] == [];
    } else {
      var n := Place(e.entries, path[0]);
      FoundThere(e.entries[n].entry, path[1..], key, entry);
      Irreflexive(path[0]);
      PlacePrefix(e.entries, after.entries, path[0]);
      assert (path + [key])[1..] == path[1..] + [key] && (path + [key])[0] == path[0];
    }
  }

  lemma Irreflexive(key: Key)
    ensures !Less(key, key)
  {
    if Less(key, key) { LessIsStrict(key, key); }
  }

  // Putting a bucket and then something into it is putting the larger bucket.
  lemma {:induction false} PutInside(e: Entry, path: seq<Key>, key: Key, sequence: nat, entries: seq<Pair>, inner: Key, entry: Entry)
    requires IsBucket(e, path)
    ensures IsBucket(PutAt(e, path, key, Sub(sequence, entries)), path + [key])
    ensures PutAt(PutAt(e, path, key, Sub(sequence, entries)), path + [key], inner, entry)
         == PutAt(e, path, key, Sub(sequence, Put(entries, inner, entry)))
    decreases |path|
  {
    hide Put, Place, Less;
    if path == [] {
      PutInsideHere(e, path, key, sequence, entries, inner, entry);
    } else {
      var before := PutAt(e, path, key, Sub(sequence, entries));
      FoundThere(e, path, key, Sub(sequence, entries));
      var n := Place(e.entries, path[0]);
      assert (path + [key])[0] == path[0] && (path + [key])[1..] == path[1..] + [key];
      PutInside(e.entries[n].entry, path[1..], key, sequence, entries, inner, entry);
      StepStays(e, path, key, Sub(sequence, entries));
      assert before.entries[n].entry == PutAt(e.entries[n].entry, path[1..], key, Sub(sequence, entries));
    }
  }

  // A put further down leaves the way there as it was.
  lemma StepStays(e: Entry, path: seq<Key>, key: Key, entry: Entry)
    requires IsBucket(e, path) && path != []
    ensures var after := PutAt(e, path, key, entry);
      Has(after.entries, path[0]) && Place(after.entries, path[0]) == Place(e.entries, path[0])
  {
    hide Put, Less;
    var after := PutAt(e, path, key, entry);
    Irreflexive(path[0]);
    PlacePrefix(e.entries, after.entries, path[0]);
  }

  lemma PutInsideHere(e: Entry, path: seq<Key>, key: Key, sequence: nat, entries: seq<Pair>, inner: Key, entry: Entry)
    requires IsBucket(e, path) && path == []
    ensures IsBucket(PutAt(e, path, key, Sub(sequence, entries)), path + [key])
    ensures PutAt(PutAt(e, path, key, Sub(sequence, entries)), path + [key], inner, entry)
         == PutAt(e, path, key, Sub(sequence, Put(entries, inner, entry)))
  {
    hide Less;
    var before := PutAt(e, path, key, Sub(sequence, entries));
    FoundThere(e, path, key, Sub(sequence, entries));
    assert (path + [key])[0] == key && (path + [key])[1..] == [];
    PutIsFound(e.entries, key, Sub(sequence, entries));
    var n := Place(e.entries, key);
    assert before.entries[n := Pair(key, Sub(sequence, Put(entries, inner, entry)))]
      == Put(e.entries, key, Sub(sequence, Put(entries, inner, entry)));
  }

  lemma {:induction false} PutLast(pairs: seq<Pair>, i: nat)
    requires i < |pairs| && PairsInOrder(pairs)
    ensures Put(pairs[..i], pairs[i].key, pairs[i].entry) == pairs[..i + 1] && !Has(pairs[..i], pairs[i].key)
  {
    AllBefore(pairs[..i], pairs[i].key);
  }

  lemma {:induction false} AllBefore(pairs: seq<Pair>, key: Key)
    requires forall i :: 0 <= i < |pairs| ==> Less(pairs[i].key, key)
    ensures Place(pairs, key) == |pairs|
  {
    if pairs != [] { AllBefore(pairs[1..], key); }
  }

  function SizeOf(key: Key, entry: Entry): nat {
    |key| + if entry.Value? then |entry.bytes| else 0
  }

  // One call of the callback: what was put where, and the bytes of its key and value.
  datatype Step = Step(path: seq<Key>, key: Key, bytes: nat)

  ghost function StepOf(path: seq<Key>, key: Key, entry: Entry): Step {
    Step(path, key, match entry case Value(bytes) => |key| + |bytes| case Sub(_, _) => |key|)
  }

  // The calls for a bucket or a value: the key itself, then everything in it, in order.
  ghost function Calls(path: seq<Key>, key: Key, entry: Entry): seq<Step>
    decreases entry, 1
  {
    [StepOf(path, key, entry)] + if entry.Sub? then CallsIn(path + [key], entry.entries) else []
  }

  ghost function CallsIn(path: seq<Key>, pairs: seq<Pair>): seq<Step>
    decreases pairs, 0
  {
    if pairs == [] then [] else
      var last := |pairs| - 1;
      CallsIn(path, pairs[..last]) + Calls(path, pairs[last].key, pairs[last].entry)
  }

  ghost function Bytes(steps: seq<Step>): nat {
    if steps == [] then 0 else Bytes(steps[..|steps| - 1]) + steps[|steps| - 1].bytes
  }

  lemma BytesLast(steps: seq<Step>, step: Step)
    ensures Bytes([]) == 0 && Bytes(steps + [step]) == Bytes(steps) + step.bytes
  {
    assert (steps + [step])[..|steps|] == steps;
  }

  ghost function Joined(batches: seq<seq<Step>>): seq<Step> {
    if batches == [] then [] else Joined(batches[..|batches| - 1]) + batches[|batches| - 1]
  }

  lemma JoinedLast(batches: seq<seq<Step>>, batch: seq<Step>)
    ensures Joined([]) == [] && Joined(batches + [batch]) == Joined(batches) + batch
  {
    assert (batches + [batch])[..|batches|] == batches;
  }

  // What one transaction may put: up to the limit, if there is one, or a single larger item.
  ghost predicate Within(txMaxSize: int, batch: seq<Step>) {
    txMaxSize != 0 ==> Bytes(batch) <= txMaxSize || |batch| <= 1
  }

  lemma OneMore(txMaxSize: int, batches: seq<seq<Step>>, batch: seq<Step>, step: Step)
    requires Within(txMaxSize, batch)
    ensures Bytes(batch + [step]) == Bytes(batch) + step.bytes && Bytes([step]) == step.bytes && Bytes([]) == 0
    ensures Within(txMaxSize, [step]) && Within(txMaxSize, [])
    ensures Bytes(batch) + step.bytes <= txMaxSize || txMaxSize == 0 ==> Within(txMaxSize, batch + [step])
    ensures Joined(batches + [batch]) + [step] == Joined(batches) + batch + [step]
    ensures Joined(batches) + (batch + [step]) == Joined(batches) + batch + [step]
  {
    hide Joined;
    BytesLast(batch, step);
    BytesLast([], step);
    assert [] + [step] == [step];
    JoinedLast(batches, batch);
  }

  // The callback of Compact, over the destination's open transaction and its last commit.
  class Compactor {
    const txMaxSize: int
    var size: int
    var tx: Entry
    var committed: Entry
    // What each transaction so far has put, and what the open one has.
    ghost var batches: seq<seq<Step>>
    ghost var batch: seq<Step>

    constructor (destination: Entry, txMaxSize: int)
      ensures this.txMaxSize == txMaxSize && tx == committed == destination && Sized() && batches == [] && batch == []
    {
      this.txMaxSize := txMaxSize;
      size, batches, batch := 0, [], [];
      tx, committed := destination, destination;
    }

    // The count is that of the open transaction, and no transaction puts more than it may.
    ghost predicate Sized()
      reads this`size, this`batches, this`batch
    {
      && size == Bytes(batch) && Within(txMaxSize, batch)
      && (forall b :: b in batches ==> Within(txMaxSize, b)) && (txMaxSize == 0 ==> batches == [])
    }

    ghost function Done(): seq<Step>
      reads this`batches, this`batch
    {
      Joined(batches) + batch
    }

    // Counts an item, after a commit if the transaction would grow past its limit.
    method Count(keys: seq<Key>, key: Key, value: Entry)
      requires Sized()
      modifies this`size, this`tx, this`committed, this`batches, this`batch
      ensures Sized() && Done() == old(Done()) + [StepOf(keys, key, value)] && tx == old(tx)
      ensures var step := StepOf(keys, key, value); var full := txMaxSize != 0 && Bytes(old(batch)) + step.bytes > txMaxSize;
        && committed == (if full then old(tx) else old(committed))
        && batches == (if full then old(batches) + [old(batch)] else old(batches))
        && batch == (if full then [] else old(batch)) + [step]
    {
      hide Bytes, Joined, Within;
      var sz := SizeOf(key, value);
      ghost var step := StepOf(keys, key, value);
      OneMore(txMaxSize, batches, batch, step);
      assert [] + [step] == [step];
      if size + sz > txMaxSize && txMaxSize != 0 {
        committed := tx;
        tx := committed;
        batches, batch := batches + [batch], [];
        size := 0;
      }
      size := size + sz;
      batch := batch + [step];
    }

    // One key: commit first if the transaction would grow past its limit, then create the bucket or put
    // the value; the root bucket holds buckets only. An existing bucket, or a bucket under an existing key,
    // stops the copy.
    method Visit(keys: seq<Key>, key: Key, value: Entry) returns (ok: bool)
      requires IsBucket(tx, keys) && (keys == [] ==> value.Sub?) && Sized()
      modifies this
      ensures Sized() && Done() == old(Done()) + [StepOf(keys, key, value)]
      ensures ok <==> (match old(At(tx, keys + [key])) case None => true case Some(e) => value.Value? && e.Value?)
      ensures ok ==> tx == PutAt(old(tx), keys, key, if value.Sub? then Sub(value.sequence, []) else value)
      ensures !ok ==> tx == old(tx)
      ensures var step := StepOf(keys, key, value); var full := txMaxSize != 0 && Bytes(old(batch)) + step.bytes > txMaxSize;
        && committed == (if full then old(tx) else old(committed))
        && batches == (if full then old(batches) + [old(batch)] else old(batches))
        && batch == (if full then [] else old(batch)) + [step]
    {
      hide Sized, Done, Less, StepOf, Bytes;
      Count(keys, key, value);
      var bucket := At(tx, keys).value;
      AtChild(tx, keys, key);
      if value.Sub? {
        if Has(bucket.entries, key) { return false; }
        tx := PutAt(tx, keys, key, Sub(value.sequence, []));
        return true;
      }
      if Has(bucket.entries, key) && bucket.entries[Place(bucket.entries, key)].entry.Sub? { return false; }
      tx := PutAt(tx, keys, key, value);
      return true;
    }

    // walkBucket: the key itself, then everything in its bucket.
    method WalkBucket(keypath: seq<Key>, key: Key, entry: Entry) returns (ok: bool)
      requires IsBucket(tx, keypath) && !Has(At(tx, keypath).value.entries, key) && InOrder(entry)
      requires (keypath == [] ==> entry.Sub?) && Sized()
      modifies this
      ensures ok && tx == PutAt(old(tx), keypath, key, entry)
      ensures Sized() && Done() == old(Done()) + Calls(keypath, key, entry)
      decreases entry
    {
      hide PutAt, Put, Place, At, Less, Sized, Done, StepOf, Bytes, Joined, Within;
      AtChild(tx, keypath, key);
      ok := Visit(keypath, key, entry);
      if entry.Value? { return; }
      ghost var first := [StepOf(keypath, key, entry)];
      var path := keypath + [key];
      PutInside(old(tx), keypath, key, entry.sequence, [], key, entry);
      assert entry.entries[..0] == [];
      for i := 0 to |entry.entries|
        invariant ok && tx == PutAt(old(tx), keypath, key, Sub(entry.sequence, entry.entries[..i]))
        invariant Sized() && Done() == old(Done()) + first + CallsIn(path, entry.entries[..i])
      {
        assert entry.entries[..i + 1][..i] == entry.entries[..i];
        var pair := entry.entries[i];
        PutLast(entry.entries, i);
        PutInside(old(tx), keypath, key, entry.sequence, entry.entries[..i], pair.key, pair.entry);
        FoundThere(old(tx), keypath, key, Sub(entry.sequence, entry.entries[..i]));
        ok := WalkBucket(path, pair.key, pair.entry);
      }
      assert entry.entries[..|entry.entries|] == entry.entries;
    }
  }

  lemma {:induction false} AtChild(e: Entry, path: seq<Key>, key: Key)
    requires IsBucket(e, path)
    ensures var pairs := At(e, path).value.entries;
      At(e, path + [key]) == if Has(pairs, key) then Some(pairs[Place(pairs, key)].entry) else None
    decreases |path|
  {
    if path == [] {
      assert (path + [key])[1..] == [];
    } else {
      assert (path + [key])[1..] == path[1..] + [key];
      AtChild(e.entries[Place(e.entries, path[0])].entry, path[1..], key);
    }
  }

  // Compact into an empty database: the last commit holds the same buckets, sequences, keys and values,
  // for every limit. The sequence of the root bucket itself is not copied.
  // Every bucket and every value is put once, in order, and no transaction puts more than the limit allows.
  method Compact(source: seq<Pair>, destination: Entry, txMaxSize: int) returns (ok: bool, result: Entry, ghost batches: seq<seq<Step>>)
    requires PairsInOrder(source) && forall pair :: pair in source ==> pair.entry.Sub?
    requires destination.Sub? && destination.entries == []
    ensures ok && result == Sub(destination.sequence, source)
    ensures Joined(batches) == CallsIn([], source) && forall b :: b in batches ==> Within(txMaxSize, b)
    ensures txMaxSize == 0 ==> |batches| == 1
  {
    var c := new Compactor(destination, txMaxSize);
    assert source[..0] == [];
    ok := true;
    for i := 0 to |source|
      invariant fresh(c) && ok && c.txMaxSize == txMaxSize && c.tx == Sub(destination.sequence, source[..i])
      invariant c.Sized() && c.Done() == CallsIn([], source[..i])
    {
      assert source[..i + 1][..i] == source[..i];
      PutLast(source, i);
      ok := c.WalkBucket([], source[i].key, source[i].entry);
    }
    assert source[..|source|] == source;
    c.committed := c.tx;
    result, batches := c.committed, c.batches + [c.batch];
    JoinedLast(c.batches, c.batch);
  }
}
