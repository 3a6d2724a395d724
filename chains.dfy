/**
 * Collision chains and the bucket list of a separate-chaining hash table, as values.
 *
 * A chain is the sequence of nodes met when walking `head`, `head.next`, ... from a
 * bucket slot; the bucket list is the sequence of chains, one per slot. The lemmas
 * here state what each in-place step of the table (prepend, overwrite, unlink) does to
 * the key/value map the bucket list represents.
 */
module Chains {
  import opened Options
  import opened JavaArith

  /** A key/value node; its `next` link is its successor in the chain. */
  datatype HashNode<K, V> = HashNode(key: K, value: V)

  type Chain<K, V> = seq<HashNode<K, V>>

  /** `hashCode & 0x7fffffff`: the hash code with its sign bit cleared. */
  function NonNegative(h: int32): (r: int)
    ensures 0 <= r < TwoTo31
    ensures h >= 0 ==> r == h as int
    ensures h < 0 ==> r == h as int + TwoTo31
  {
    (h as int) % TwoTo31
  }

  /** The slot a key with hash code `h` belongs to in a table of `numBuckets` slots. */
  function BucketIndex(h: int32, numBuckets: int): (i: nat)
    requires numBuckets > 0
    ensures i < numBuckets
  {
    NonNegative(h) % numBuckets
  }

  /** The value of the first node of `c` whose key is `k`: what a walk of the chain returns. */
  ghost function Find<K, V>(c: Chain<K, V>, k: K): (r: Option<V>)
    ensures r.None? <==> forall j :: 0 <= j < |c| ==> c[j].key != k
    ensures r.Some? ==> exists j :: 0 <= j < |c| && c[j] == HashNode(k, r.value)
  {
    if c == [] then None
    else if c[0].key == k then Some(c[0].value)
    else
      var r := Find(c[1..], k);
      assert forall j :: 1 <= j < |c| ==> c[1..][j - 1] == c[j];
      r
  }

  ghost predicate DistinctKeys<K, V>(c: Chain<K, V>) {
    forall i, j :: 0 <= i < j < |c| ==> c[i].key != c[j].key
  }

  /** Every node of `c` hashes to slot `i` of a table of `n` slots. */
  ghost predicate InBucket<K, V>(c: Chain<K, V>, i: int, n: int, hash: K -> int32)
    requires n > 0
  {
    forall j :: 0 <= j < |c| ==> BucketIndex(hash(c[j].key), n) == i
  }

  /** Each chain of `b` holds distinct keys, all hashing to that chain's slot. */
  ghost predicate WellFormed<K, V>(b: seq<Chain<K, V>>, hash: K -> int32) {
    forall i :: 0 <= i < |b| ==> DistinctKeys(b[i]) && InBucket(b[i], i, |b|, hash)
  }

  /** Looking a key up in its slot's chain gives exactly what `m` maps it to. */
  ghost predicate Represents<K(!new), V>(b: seq<Chain<K, V>>, hash: K -> int32, m: map<K, V>) {
    |b| > 0 && forall k :: Find(b[BucketIndex(hash(k), |b|)], k) == Lookup(m, k)
  }

  /** The number of nodes reachable from all slots. */
  function TotalLength<K, V>(b: seq<Chain<K, V>>): (n: nat)
    ensures b == [] ==> n == 0
  {
    if b == [] then 0 else TotalLength(b[..|b| - 1]) + |b[|b| - 1]|
  }

  /** Walks `c` from its head until a node with key `k`, or past its end. */
  method Scan<K(==), V>(c: Chain<K, V>, k: K) returns (j: nat)
    ensures j <= |c|
    ensures j < |c| ==> c[j].key == k
    ensures forall j' :: 0 <= j' < j ==> c[j'].key != k
    ensures j == |c| <==> Find(c, k) == None
    ensures j < |c| ==> Find(c, k) == Some(c[j].value)
  {
    j := 0;
    while j < |c| && c[j].key != k
      invariant j <= |c|
      invariant forall j' :: 0 <= j' < j ==> c[j'].key != k
      invariant Find(c[j..], k) == Find(c, k)
    {
      assert c[j..][1..] == c[j + 1..];
      j := j + 1;
    }
  }

  lemma {:induction false} TotalLengthUpdate<K, V>(b: seq<Chain<K, V>>, i: nat, c: Chain<K, V>)
    requires i < |b|
    ensures TotalLength(b[i := c]) == TotalLength(b) - |b[i]| + |c|
    decreases |b|
  {
    var b' := b[i := c];
    if i < |b| - 1 {
      assert b'[..|b'| - 1] == b[..|b| - 1][i := c];
      TotalLengthUpdate(b[..|b| - 1], i, c);
    } else {
      assert b'[..|b'| - 1] == b[..|b| - 1];
    }
  }

  /** A table of `n` empty chains is well formed, represents the empty map and holds no node. */
  lemma {:induction false} EmptyTable<K(!new), V>(b: seq<Chain<K, V>>, hash: K -> int32)
    requires |b| > 0
    requires forall i :: 0 <= i < |b| ==> b[i] == []
    ensures WellFormed(b, hash) && Represents(b, hash, map[]) && TotalLength(b) == 0
    decreases |b|
  {
    if |b| > 1 {
      EmptyTableLength(b[..|b| - 1]);
    }
  }

  lemma {:induction false} EmptyTableLength<K, V>(b: seq<Chain<K, V>>)
    requires forall i :: 0 <= i < |b| ==> b[i] == []
    ensures TotalLength(b) == 0
    decreases |b|
  {
    if b != [] {
      EmptyTableLength(b[..|b| - 1]);
    }
  }

  /** With distinct keys, the node at position `j` is the one a walk for its key stops at. */
  lemma {:induction false} FindAt<K, V>(c: Chain<K, V>, j: nat)
    requires DistinctKeys(c) && j < |c|
    ensures Find(c, c[j].key) == Some(c[j].value)
  {
    if j > 0 {
      assert c[1..][j - 1] == c[j];
      FindAt(c[1..], j - 1);
    }
  }

  /** Overwriting the value of the node for `c[j].key` changes that key's lookup and no other. */
  lemma {:induction false} FindUpdate<K, V>(c: Chain<K, V>, j: nat, v: V, k': K)
    requires DistinctKeys(c) && j < |c|
    ensures Find(c[j := HashNode(c[j].key, v)], k') == if k' == c[j].key then Some(v) else Find(c, k')
  {
    var c' := c[j := HashNode(c[j].key, v)];
    if j > 0 {
      assert c'[1..] == c[1..][j - 1 := HashNode(c[j].key, v)];
      FindUpdate(c[1..], j - 1, v, k');
    }
  }

  /** Unlinking the node at position `j` makes its key absent and leaves every other lookup alone. */
  lemma {:induction false} FindUnlink<K, V>(c: Chain<K, V>, j: nat, k': K)
    requires DistinctKeys(c) && j < |c|
    ensures Find(c[..j] + c[j + 1..], k') == if k' == c[j].key then None else Find(c, k')
  {
    var c' := c[..j] + c[j + 1..];
    if j == 0 {
      assert c' == c[1..];
      if k' == c[0].key {
        assert forall m :: 0 <= m < |c'| ==> c'[m] == c[m + 1];
      }
    } else {
      assert c'[0] == c[0];
      assert c'[1..] == c[1..][..j - 1] + c[1..][j..];
      FindUnlink(c[1..], j - 1, k');
    }
  }

  /**
   * Prepending a node for a key the table does not hold, at the head of that key's
   * chain, adds exactly that key and exactly one node.
   */
  lemma PutNew<K(!new), V>(b: seq<Chain<K, V>>, hash: K -> int32, m: map<K, V>, k: K, v: V)
    requires WellFormed(b, hash) && Represents(b, hash, m) && k !in m
    ensures var i := BucketIndex(hash(k), |b|);
      var b' := b[i := [HashNode(k, v)] + b[i]];
      WellFormed(b', hash) && Represents(b', hash, m[k := v]) && TotalLength(b') == TotalLength(b) + 1
  {
    var i := BucketIndex(hash(k), |b|);
    var c := [HashNode(k, v)] + b[i];
    var b' := b[i := c];
    assert Find(b[i], k) == None;
    forall x, y | 0 <= x < y < |c| ensures c[x].key != c[y].key {
      if x > 0 {
        assert c[x] == b[i][x - 1] && c[y] == b[i][y - 1];
      }
    }
    assert InBucket(c, i, |b|, hash) by {
      forall j | 0 <= j < |c| ensures BucketIndex(hash(c[j].key), |b|) == i {
        if j > 0 {
          assert c[j] == b[i][j - 1];
        }
      }
    }
    forall k' ensures Find(b'[BucketIndex(hash(k'), |b'|)], k') == Lookup(m[k := v], k') {
      if BucketIndex(hash(k'), |b|) == i {
        assert c[1..] == b[i];
      }
    }
    TotalLengthUpdate(b, i, c);
  }

  /** Overwriting the value of node `j` of key `k`'s chain maps `k` to the new value. */
  lemma UpdateAt<K(!new), V>(b: seq<Chain<K, V>>, hash: K -> int32, m: map<K, V>, k: K, j: nat, v: V)
    requires WellFormed(b, hash) && Represents(b, hash, m)
    requires j < |b[BucketIndex(hash(k), |b|)]| && b[BucketIndex(hash(k), |b|)][j].key == k
    ensures var i := BucketIndex(hash(k), |b|);
      WellFormed(b[i := b[i][j := HashNode(k, v)]], hash)
    ensures var i := BucketIndex(hash(k), |b|);
      Represents(b[i := b[i][j := HashNode(k, v)]], hash, m[k := v])
    ensures var i := BucketIndex(hash(k), |b|);
      TotalLength(b[i := b[i][j := HashNode(k, v)]]) == TotalLength(b)
  {
    var i := BucketIndex(hash(k), |b|);
    var c := b[i][j := HashNode(k, v)];
    var b' := b[i := c];
    assert DistinctKeys(c) && InBucket(c, i, |b|, hash);
    forall k' ensures Find(b'[BucketIndex(hash(k'), |b'|)], k') == Lookup(m[k := v], k') {
      if BucketIndex(hash(k'), |b|) == i {
        FindUpdate(b[i], j, v, k');
      }
    }
    TotalLengthUpdate(b, i, c);
  }

  /** Unlinking node `j` of key `k`'s chain removes exactly `k` and exactly one node. */
  lemma RemoveAt<K(!new), V>(b: seq<Chain<K, V>>, hash: K -> int32, m: map<K, V>, k: K, j: nat)
    requires WellFormed(b, hash) && Represents(b, hash, m)
    requires j < |b[BucketIndex(hash(k), |b|)]| && b[BucketIndex(hash(k), |b|)][j].key == k
    ensures k in m
    ensures var i := BucketIndex(hash(k), |b|);
      WellFormed(b[i := b[i][..j] + b[i][j + 1..]], hash)
    ensures var i := BucketIndex(hash(k), |b|);
      Represents(b[i := b[i][..j] + b[i][j + 1..]], hash, m - {k})
    ensures var i := BucketIndex(hash(k), |b|);
      TotalLength(b[i := b[i][..j] + b[i][j + 1..]]) == TotalLength(b) - 1
  {
    var i := BucketIndex(hash(k), |b|);
    var c := b[i][..j] + b[i][j + 1..];
    var b' := b[i := c];
    assert Find(b[i], k) != None;
    UnlinkKeepsChain(b[i], j, i, |b|, hash);
    forall k' ensures Find(b'[BucketIndex(hash(k'), |b'|)], k') == Lookup(m - {k}, k') {
      if BucketIndex(hash(k'), |b|) == i {
        FindUnlink(b[i], j, k');
      }
    }
    TotalLengthUpdate(b, i, c);
  }

  /** Every node before position (`i`, `j`) of `b`, slot by slot, has its key in `m`. */
  ghost predicate MovedBefore<K, V>(b: seq<Chain<K, V>>, m: map<K, V>, i: int, j: int) {
    forall i', j' :: 0 <= i' < |b| && 0 <= j' < |b[i']| && (i' < i || (i' == i && j' < j)) ==> b[i'][j'].key in m
  }

  /** No node at or after position (`i`, `j`) of `b` has its key in `m`. */
  ghost predicate NotMovedFrom<K, V>(b: seq<Chain<K, V>>, m: map<K, V>, i: int, j: int) {
    forall i', j' :: 0 <= i' < |b| && 0 <= j' < |b[i']| && (i' > i || (i' == i && j' >= j)) ==> b[i'][j'].key !in m
  }

  /**
   * Moving the node at (`i`, `j`) of a well-formed old table into `m` advances the
   * boundary between moved and unmoved nodes by one: its key occurs nowhere later.
   */
  lemma MoveNext<K, V>(b: seq<Chain<K, V>>, hash: K -> int32, m: map<K, V>, i: nat, j: nat, v: V)
    requires |b| > 0 && WellFormed(b, hash) && i < |b| && j < |b[i]|
    requires MovedBefore(b, m, i, j) && NotMovedFrom(b, m, i, j)
    ensures b[i][j].key !in m
    ensures MovedBefore(b, m[b[i][j].key := v], i, j + 1)
    ensures NotMovedFrom(b, m[b[i][j].key := v], i, j + 1)
  {
    var k := b[i][j].key;
    forall i', j' | 0 <= i' < |b| && 0 <= j' < |b[i']| && (i' > i || (i' == i && j' > j))
      ensures b[i'][j'].key != k
    {
      if i' > i {
        assert BucketIndex(hash(b[i'][j'].key), |b|) == i' && BucketIndex(hash(k), |b|) == i;
      }
    }
  }

  /** Position (`i`, |b[i]|) and position (`i` + 1, 0) split the nodes the same way. */
  lemma NextChain<K, V>(b: seq<Chain<K, V>>, m: map<K, V>, i: nat)
    requires i < |b|
    ensures MovedBefore(b, m, i, |b[i]|) ==> MovedBefore(b, m, i + 1, 0)
    ensures NotMovedFrom(b, m, i, |b[i]|) ==> NotMovedFrom(b, m, i + 1, 0)
  {
  }

  /** A chain with one node unlinked still has distinct keys, all of its slot. */
  lemma UnlinkKeepsChain<K, V>(c: Chain<K, V>, j: nat, i: int, n: int, hash: K -> int32)
    requires n > 0 && j < |c| && DistinctKeys(c) && InBucket(c, i, n, hash)
    ensures DistinctKeys(c[..j] + c[j + 1..]) && InBucket(c[..j] + c[j + 1..], i, n, hash)
  {
    var c' := c[..j] + c[j + 1..];
    assert forall x :: 0 <= x < |c'| ==> c'[x] == if x < j then c[x] else c[x + 1];
  }

  /** Every node of a well-formed table is an entry of the map it represents. */
  lemma NodeIsEntry<K(!new), V>(b: seq<Chain<K, V>>, hash: K -> int32, m: map<K, V>, i: nat, j: nat)
    requires WellFormed(b, hash) && Represents(b, hash, m)
    requires i < |b| && j < |b[i]|
    ensures b[i][j].key in m && m[b[i][j].key] == b[i][j].value
  {
    var k := b[i][j].key;
    assert BucketIndex(hash(k), |b|) == i;
    FindAt(b[i], j);
  }

  /** Every entry of the represented map is a node in its key's chain. */
  lemma EntryIsNode<K(!new), V>(b: seq<Chain<K, V>>, hash: K -> int32, m: map<K, V>, k: K)
    requires Represents(b, hash, m) && k in m
    ensures exists j :: 0 <= j < |b[BucketIndex(hash(k), |b|)]|
                        && b[BucketIndex(hash(k), |b|)][j] == HashNode(k, m[k])
  {
    assert Find(b[BucketIndex(hash(k), |b|)], k) == Some(m[k]);
  }
}
