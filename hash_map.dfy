/**
 * `myHashMap`: a separate-chaining hash table that doubles its bucket count when the
 * load factor passes 0.7.
 *
 * The bucket list is an array of chains; `Contents` is the map the table stands for,
 * the contract Java's `Map` interface documents. Java's `null` results are `None`.
 */
module HashTable {
  import opened Options
  import opened JavaArith
  import opened Chains

  const InitialNumBuckets: int := 10

  function Pow2(n: nat): (r: nat)
    ensures r >= 1
  {
    if n == 0 then 1 else 2 * Pow2(n - 1)
  }

  /**
   * The resize test. Java compares the double `size / numBuckets` with the float literal
   * `0.7f`, which widens to about 0.69999998, so a load of exactly 7/10 already triggers
   * a resize. The integer test below agrees with that for every bucket count below about
   * 8 * 10^7; beyond that, loads a few units short of 7/10 also trigger in Java.
   */
  function OverLoaded(size: int, numBuckets: int): (over: bool)
    ensures numBuckets > 0 ==> (over <==> size as real / numBuckets as real >= 0.7)
  {
    var over := 10 * size >= 7 * numBuckets;
    assert numBuckets > 0 ==> (over <==> size as real / numBuckets as real >= 0.7) by {
      if numBuckets > 0 {
        var load := size as real / numBuckets as real;
        assert load * numBuckets as real == size as real;
      }
    }
    over
  }

  class MyHashMap<K(==, !new), V(==)> {
    /** The keys' `hashCode`, fixed for the table's lifetime. */
    const hash: K -> int32

    var bucket: array<Chain<K, V>>
    var numBuckets: int
    var size: int

    /** The map the table stands for. */
    ghost var Contents: map<K, V>
    /** How many times the table has doubled. */
    ghost var Resizes: nat
    ghost var Repr: set<object>

    /** Every invariant of the table except the load bound. */
    ghost predicate Consistent()
      reads this, Repr
      ensures Consistent() ==> this in Repr && bucket in Repr
    {
      && Repr == {this, bucket}
      && numBuckets == bucket.Length
      && numBuckets == InitialNumBuckets * Pow2(Resizes)
      && WellFormed(bucket[..], hash)
      && Represents(bucket[..], hash, Contents)
      && size == TotalLength(bucket[..])
      && size == |Contents|
    }

    ghost predicate Valid()
      reads this, Repr
      ensures Valid() ==> this in Repr
    {
      Consistent() && !OverLoaded(size, numBuckets)
    }

    constructor (hash: K -> int32)
      ensures Valid() && fresh(Repr)
      ensures this.hash == hash && Contents == map[]
      ensures numBuckets == InitialNumBuckets && size == 0
    {
      this.hash := hash;
      numBuckets := InitialNumBuckets;
      size := 0;
      bucket := new Chain<K, V>[InitialNumBuckets](_ => []);
      Contents := map[];
      Resizes := 0;
      new;
      Repr := {this, bucket};
      EmptyTable(bucket[..], hash);
    }

    method Size() returns (n: int)
      requires Valid()
      ensures n == |Contents|
    {
      n := size;
    }

    method IsEmpty() returns (empty: bool)
      requires Valid()
      ensures empty <==> Contents == map[]
    {
      empty := size == 0;
    }

    /** Drops every entry; the bucket count stays as it is. */
    method Clear()
      requires Valid()
      modifies Repr
      ensures Valid() && fresh(Repr - old(Repr))
      ensures Contents == map[] && size == 0
      ensures numBuckets == old(numBuckets)
      ensures forall i :: 0 <= i < bucket.Length ==> bucket[i] == []
    {
      size := 0;
      bucket := new Chain<K, V>[numBuckets](_ => []);
      Contents := map[];
      Repr := {this, bucket};
      EmptyTable(bucket[..], hash);
    }

    method Get(key: K) returns (r: Option<V>)
      requires Valid()
      ensures r == Lookup(Contents, key)
    {
      var index := BucketIndex(hash(key), numBuckets);
      var chain := bucket[index];
      assert Find(bucket[..][index], key) == Lookup(Contents, key);
      var j := Scan(chain, key);
      if j < |chain| {
        r := Some(chain[j].value);
      } else {
        r := None;
      }
    }

    method ContainsKey(key: K) returns (found: bool)
      requires Valid()
      ensures found <==> key in Contents
    {
      var r := Get(key);
      found := r.Some?;
    }

    /** Walks every chain of every slot looking for a node holding `val`. */
    method ContainsValue(val: V) returns (found: bool)
      requires Valid()
      ensures found <==> val in Contents.Values
    {
      var i := 0;
      while i < bucket.Length
        invariant 0 <= i <= bucket.Length
        invariant forall i', j' :: 0 <= i' < i && 0 <= j' < |bucket[i']| ==> bucket[i'][j'].value != val
      {
        var chain := bucket[i];
        var j := 0;
        while j < |chain|
          invariant 0 <= j <= |chain|
          invariant forall j' :: 0 <= j' < j ==> chain[j'].value != val
        {
          if chain[j].value == val {
            NodeIsEntry(bucket[..], hash, Contents, i, j);
            return true;
          }
          j := j + 1;
        }
        i := i + 1;
      }
      forall k | k in Contents ensures Contents[k] != val {
        EntryIsNode(bucket[..], hash, Contents, k);
      }
      found := false;
    }

    /** The keys of all nodes, collected chain by chain. */
    method KeySet() returns (keys: set<K>)
      requires Valid()
      ensures keys == Contents.Keys
    {
      keys := {};
      var i := 0;
      while i < bucket.Length
        invariant 0 <= i <= bucket.Length
        invariant keys <= Contents.Keys
        invariant forall i', j' :: 0 <= i' < i && 0 <= j' < |bucket[i']| ==> bucket[i'][j'].key in keys
      {
        var chain := bucket[i];
        var j := 0;
        while j < |chain|
          invariant 0 <= j <= |chain|
          invariant keys <= Contents.Keys
          invariant forall i', j' :: 0 <= i' < i && 0 <= j' < |bucket[i']| ==> bucket[i'][j'].key in keys
          invariant forall j' :: 0 <= j' < j ==> chain[j'].key in keys
        {
          NodeIsEntry(bucket[..], hash, Contents, i, j);
          keys := keys + {chain[j].key};
          j := j + 1;
        }
        i := i + 1;
      }
      forall k | k in Contents ensures k in keys {
        EntryIsNode(bucket[..], hash, Contents, k);
      }
    }

    /** The (key, value) pairs of all nodes, collected chain by chain. */
    method EntrySet() returns (entries: set<(K, V)>)
      requires Valid()
      ensures entries == Contents.Items
    {
      entries := {};
      var i := 0;
      while i < bucket.Length
        invariant 0 <= i <= bucket.Length
        invariant entries <= Contents.Items
        invariant forall i', j' :: 0 <= i' < i && 0 <= j' < |bucket[i']| ==>
                    (bucket[i'][j'].key, bucket[i'][j'].value) in entries
      {
        var chain := bucket[i];
        var j := 0;
        while j < |chain|
          invariant 0 <= j <= |chain|
          invariant entries <= Contents.Items
          invariant forall i', j' :: 0 <= i' < i && 0 <= j' < |bucket[i']| ==>
                      (bucket[i'][j'].key, bucket[i'][j'].value) in entries
          invariant forall j' :: 0 <= j' < j ==> (chain[j'].key, chain[j'].value) in entries
        {
          NodeIsEntry(bucket[..], hash, Contents, i, j);
          entries := entries + {(chain[j].key, chain[j].value)};
          j := j + 1;
        }
        i := i + 1;
      }
      forall e | e in Contents.Items ensures e in entries {
        EntryIsNode(bucket[..], hash, Contents, e.0);
      }
    }

    /** Unlinks the node holding `key`, if any, and returns its value. */
    method Remove(key: K) returns (r: Option<V>)
      requires Valid()
      modifies Repr
      ensures Valid() && Repr == old(Repr) && bucket == old(bucket)
      ensures r == Lookup(old(Contents), key)
      ensures Contents == old(Contents) - {key}
      ensures size == if key in old(Contents) then old(size) - 1 else old(size)
      ensures numBuckets == old(numBuckets)
      ensures r.None? ==> bucket[..] == old(bucket[..])
      ensures var i := BucketIndex(hash(key), numBuckets);
        r.Some? ==> exists j :: 0 <= j < |old(bucket[i])|
                               && bucket[..] == old(bucket[..])[i := old(bucket[i])[..j] + old(bucket[i])[j + 1..]]
    {
      var index := BucketIndex(hash(key), numBuckets);
      var chain := bucket[index];
      assert Find(bucket[..][index], key) == Lookup(Contents, key);
      var j := Scan(chain, key);
      if j == |chain| {
        return None;
      }
      ghost var b := bucket[..];
      RemoveAt(b, hash, Contents, key, j);
      if j > 0 {
        bucket[index] := chain[..j] + chain[j + 1..];  // prev.next = head.next
      } else {
        assert chain[..0] + chain[1..] == chain[1..];
        bucket[index] := chain[1..];  // the bucket slot takes head.next
      }
      assert bucket[..] == b[index := chain[..j] + chain[j + 1..]];
      size := size - 1;
      Contents := Contents - {key};
      r := Some(chain[j].value);
    }

    /** Java's `remove(key, value)`: removes `key` only when it currently maps to `val`. */
    method RemoveIfEquals(key: K, val: V) returns (removed: bool)
      requires Valid()
      modifies Repr
      ensures Valid() && Repr == old(Repr) && bucket == old(bucket)
      ensures removed <==> key in old(Contents) && old(Contents)[key] == val
      ensures Contents == if removed then old(Contents) - {key} else old(Contents)
      ensures size == if removed then old(size) - 1 else old(size)
      ensures numBuckets == old(numBuckets)
      ensures !removed ==> bucket[..] == old(bucket[..])
    {
      var originalValue := Get(key);
      if originalValue.None? || originalValue.value != val {
        return false;
      }
      var _ := Remove(key);
      removed := true;
    }

    /** Overwrites the value of an existing key; never inserts. */
    method Replace(key: K, val: V) returns (r: Option<V>)
      requires Valid()
      modifies Repr
      ensures Valid() && Repr == old(Repr) && bucket == old(bucket)
      ensures r == Lookup(old(Contents), key)
      ensures Contents == if key in old(Contents) then old(Contents)[key := val] else old(Contents)
      ensures size == old(size) && numBuckets == old(numBuckets)
      ensures r.None? ==> bucket[..] == old(bucket[..])
    {
      var oldValue := Get(key);
      if oldValue.None? {
        return None;
      }
      var index := BucketIndex(hash(key), numBuckets);
      var chain := bucket[index];
      assert Find(bucket[..][index], key) == Lookup(Contents, key);
      var j := Scan(chain, key);
      ghost var b := bucket[..];
      UpdateAt(b, hash, Contents, key, j, val);
      bucket[index] := chain[j := HashNode(key, val)];
      assert bucket[..] == b[index := chain[j := HashNode(key, val)]];
      Contents := Contents[key := val];
      r := oldValue;
    }

    /** Java's `replace(key, oldValue, newValue)`: overwrites only when `key` maps to `oldVal`. */
    method ReplaceIfEquals(key: K, oldVal: V, newVal: V) returns (replaced: bool)
      requires Valid()
      modifies Repr
      ensures Valid() && Repr == old(Repr) && bucket == old(bucket)
      ensures replaced <==> key in old(Contents) && old(Contents)[key] == oldVal
      ensures Contents == if replaced then old(Contents)[key := newVal] else old(Contents)
      ensures size == old(size) && numBuckets == old(numBuckets)
      ensures !replaced ==> bucket[..] == old(bucket[..])
    {
      var originalValue := Get(key);
      if originalValue.None? || originalValue.value != oldVal {
        return false;
      }
      var _ := Replace(key, newVal);
      replaced := true;
    }

    /**
     * Maps `key` to `value` and returns the previous value. A new key's node goes to the
     * head of its chain; if the table is then over the load threshold it is rebuilt with
     * twice the buckets before `Put` returns.
     */
    method Put(key: K, value: V) returns (r: Option<V>)
      requires Valid()
      modifies Repr
      ensures Valid() && fresh(Repr - old(Repr))
      ensures r == Lookup(old(Contents), key)
      ensures Contents == old(Contents)[key := value]
      ensures size == if key in old(Contents) then old(size) else old(size) + 1
      ensures numBuckets == if key !in old(Contents) && OverLoaded(old(size) + 1, old(numBuckets))
                            then 2 * old(numBuckets) else old(numBuckets)
    {
      var oldValue := Get(key);
      if oldValue.Some? {
        var _ := Replace(key, value);
        return oldValue;
      }
      var index := BucketIndex(hash(key), numBuckets);
      ghost var b := bucket[..];
      PutNew(b, hash, Contents, key, value);
      bucket[index] := [HashNode(key, value)] + bucket[index];
      assert bucket[..] == b[index := [HashNode(key, value)] + b[index]];
      size := size + 1;
      Contents := Contents[key := value];
      if OverLoaded(size, numBuckets) {
        Resize();
      }
      r := None;
    }

    /**
     * The resize block of `put`: a fresh bucket list of twice the size, into which every
     * node of the old one is put again, each at the head of its new chain. Every key is
     * new to the table being filled and its load stays under the threshold, so these
     * inner puts neither overwrite nor resize.
     */
    method Resize()
      requires Consistent() && 10 * (size - 1) < 7 * numBuckets
      modifies Repr
      ensures Valid() && fresh(Repr - old(Repr))
      ensures Contents == old(Contents) && size == old(size)
      ensures numBuckets == 2 * old(numBuckets)
    {
      var tmp := bucket[..];
      ghost var oldContents := Contents;
      ghost var oldSize := size;
      NodesAreEntries(tmp, oldContents);
      bucket := new Chain<K, V>[2 * numBuckets](_ => []);
      numBuckets := 2 * numBuckets;
      size := 0;
      Contents := map[];
      Resizes := Resizes + 1;
      Repr := {this, bucket};
      EmptyTable(bucket[..], hash);
      var i := 0;
      while i < |tmp|
        invariant 0 <= i <= |tmp|
        invariant RebuildInvariant(tmp, oldContents, oldSize) && fresh(bucket)
        invariant MovedBefore(tmp, Contents, i, 0) && NotMovedFrom(tmp, Contents, i, 0)
      {
        var chain := tmp[i];
        var j := 0;
        while j < |chain|
          invariant 0 <= j <= |chain|
          invariant RebuildInvariant(tmp, oldContents, oldSize) && fresh(bucket)
          invariant MovedBefore(tmp, Contents, i, j) && NotMovedFrom(tmp, Contents, i, j)
        {
          MoveNode(tmp, oldContents, oldSize, i, j);
          j := j + 1;
        }
        NextChain(tmp, Contents, i);
        i := i + 1;
      }
      forall k | k in oldContents ensures k in Contents {
        EntryIsNode(tmp, hash, oldContents, k);
      }
      assert Contents == oldContents;
    }

    /**
     * One inner `put` of `Resize`: node `j` of old chain `i` goes to the head of its
     * chain in the new bucket list.
     */
    method MoveNode(tmp: seq<Chain<K, V>>, ghost oldContents: map<K, V>, ghost oldSize: int, i: nat, j: nat)
      requires RebuildInvariant(tmp, oldContents, oldSize)
      requires i < |tmp| && j < |tmp[i]|
      requires MovedBefore(tmp, Contents, i, j) && NotMovedFrom(tmp, Contents, i, j)
      modifies this, bucket
      ensures RebuildInvariant(tmp, oldContents, oldSize)
      ensures MovedBefore(tmp, Contents, i, j + 1) && NotMovedFrom(tmp, Contents, i, j + 1)
      ensures bucket == old(bucket) && Repr == old(Repr)
    {
      var node := tmp[i][j];
      MoveNext(tmp, hash, Contents, i, j, node.value);
      RebuildStep(tmp, oldContents, oldSize, i, j);
      var index := BucketIndex(hash(node.key), numBuckets);
      ghost var b := bucket[..];
      PutNew(b, hash, Contents, node.key, node.value);
      bucket[index] := [HashNode(node.key, node.value)] + bucket[index];
      assert bucket[..] == b[index := [HashNode(node.key, node.value)] + b[index]];
      size := size + 1;
      Contents := Contents[node.key := node.value];
    }

    /** The state of the table being filled by `Resize`, `tmp` being the old bucket list. */
    ghost predicate RebuildInvariant(tmp: seq<Chain<K, V>>, oldContents: map<K, V>, oldSize: int)
      reads this, Repr
    {
      && WellFormed(tmp, hash) && Represents(tmp, hash, oldContents)
      && oldSize == |oldContents| && 10 * (oldSize - 1) < 7 * |tmp|
      && Consistent()
      && numBuckets == 2 * |tmp|
      && (forall k :: k in Contents ==> k in oldContents && Contents[k] == oldContents[k])
    }

    /** The next node `Resize` moves is an entry of the old map not yet in the new table. */
    lemma RebuildStep(tmp: seq<Chain<K, V>>, oldContents: map<K, V>, oldSize: int, i: nat, j: nat)
      requires RebuildInvariant(tmp, oldContents, oldSize)
      requires i < |tmp| && j < |tmp[i]| && tmp[i][j].key !in Contents
      ensures tmp[i][j].key in oldContents && oldContents[tmp[i][j].key] == tmp[i][j].value
      ensures !OverLoaded(size + 1, numBuckets)
    {
      NodeIsEntry(tmp, hash, oldContents, i, j);
      var rest := oldContents.Keys - Contents.Keys;
      assert tmp[i][j].key in rest;
      assert oldContents.Keys == Contents.Keys + rest && Contents.Keys !! rest;
    }

    /** Every node of the old bucket list is an entry of the map it represents. */
    lemma NodesAreEntries(tmp: seq<Chain<K, V>>, m: map<K, V>)
      requires WellFormed(tmp, hash) && Represents(tmp, hash, m)
      ensures forall i, j :: 0 <= i < |tmp| && 0 <= j < |tmp[i]| ==> tmp[i][j].key in m
    {
      forall i, j | 0 <= i < |tmp| && 0 <= j < |tmp[i]| ensures tmp[i][j].key in m {
        NodeIsEntry(tmp, hash, m, i, j);
      }
    }
  }
}
