# myHashMap and HashingProblems, modelled in Dafny

This project models two Java classes.

- `myHashMap<K,V>` is a separate-chaining hash table. It has a bucket list of singly
  linked chains of `HashNode`s, a bucket count `numBuckets` (initially 10) and an entry
  count `size`. New keys go to the head of their chain. After an insertion that brings
  the load to 0.7, the table is rebuilt with twice the buckets.
- `HashingProblems` holds three one-pass exercises: `getAverage`, `odd` and `twoSums`.

The model has five modules.

- `Options` (options.dfy): `Option` stands in for Java's `null` results. `Lookup` reads a map.
- `JavaArith` (java_arith.dfy): Java's `int` as `int32`, its wrap-around (`Wrap32`) and its
  truncating `%` (`JavaRem`).
- `Chains` (chains.dfy): chains and the bucket list as values.
  - `BucketIndex` is `getBucketIndex`.
  - `Find` is what a walk along one chain returns.
  - `WellFormed` says every chain has distinct keys and every node sits in its key's slot.
  - `Represents` ties the bucket list to a `map<K,V>`.
  - `TotalLength` counts the reachable nodes.
  - One lemma per in-place step (prepend, overwrite, unlink, move) states what that step
    does to the represented map and to the node count.
- `HashTable` (hash_map.dfy): the class `MyHashMap`. Its `bucket` is an array of chains. It
  has the fields `numBuckets` and `size`, a ghost `Contents: map<K,V>` (the map that Java's
  `Map` interface documents) and a ghost `Resizes` counter. `Valid()` states the invariants:
  - `size` equals the number of reachable nodes and `|Contents|`;
  - every node sits in the chain `BucketIndex` gives its key;
  - no key appears twice;
  - the array length equals `numBuckets`;
  - `numBuckets == 10 * 2^Resizes`;
  - `10 * size < 7 * numBuckets` holds between operations.

  Each method states its result and its new `Contents` in terms of the old one.
- `HashingProblems` (hashing_problems.dfy): the three exercises as methods with loop
  invariants. They are proved against recursive specification functions, and lemmas
  connect those functions to independent definitions.

Keys are hashed by a total function `hash: K -> int32`, fixed when the table is built. It
stands for `K.hashCode()`. Key and value equality is Dafny equality.

The load test is written `OverLoaded(size, numBuckets)`, that is
`10 * size >= 7 * numBuckets`. The Java test compares the double `size / numBuckets` with
the float literal `0.7f`. Widened to double, that literal is about 0.69999998, so a load of
exactly 7/10 already resizes. The integer test agrees with the Java test whenever
`numBuckets` is below about 8 * 10^7.

`twoSums` computes `num - k` and `num + k` in 32-bit arithmetic. The model keeps that
wrap-around. `TwoSumsWrapExample` shows the consequence: for `[2147483647, -2147483648]`
with `k = 1`, the count is 1, although no two elements differ by 1.

A few points of the code that the model follows as written:
- `AverageExample` uses the data of the comment at HashingProblems.java:26-30, where the
  map has no key 7.
- The rebuild re-`put`s every entry into a fresh node (myHashMap.java:162-167). With value
  nodes, moving a node and allocating a new one are the same.
- `clear` keeps `numBuckets` (myHashMap.java:70-76), and so does `Clear`.
- `twoSums` counts, for each element, how many of `num - k` and `num + k` it has already
  seen (HashingProblems.java:107-115). The model counts exactly that (`ForwardCount`), and
  `TwoSumsCountsPairs` relates it to the number of pairs at distance `|k|`.

## Model

| member | source | states |
|---|---|---|
| Chains.NonNegative | myHashMap.java:79 | `hashCode & 0x7fffffff` lies in [0, 2^31): a non-negative hash is unchanged, and a negative one gains 2^31 |
| Chains.BucketIndex | myHashMap.java:78-80 | the slot is in `[0, numBuckets)`; it is a function of the hash code and the bucket count only |
| Chains.Find | myHashMap.java:82-92 | a chain walk for `k` returns None exactly when no node has key `k`; otherwise it returns the value of a node with key `k` |
| Chains.Scan | myHashMap.java:85-90 | the walk stops at the first node with the key, whose value is `Find`'s; it runs off the end exactly when `Find` is None |
| Chains.TotalLengthUpdate | myHashMap.java:106 | replacing one chain changes the reachable-node count by the difference of the two chains' lengths |
| Chains.EmptyTable | myHashMap.java:58-65 | a bucket list of empty chains is well formed, represents the empty map and holds no node |
| Chains.EmptyTableLength | myHashMap.java:70-76 | a bucket list of empty chains holds no node |
| Chains.FindAt | myHashMap.java:85-88 | in a chain with distinct keys, the walk for a node's key returns that node's value |
| Chains.FindUpdate | myHashMap.java:181-185 | overwriting one node's value changes the lookup of its key to the new value and no other lookup |
| Chains.FindUnlink | myHashMap.java:99-107 | unlinking one node makes its key absent and leaves every other lookup unchanged |
| Chains.PutNew | myHashMap.java:132-150 | prepending a node for an absent key keeps the table well formed, represents the old map plus that key, and adds one node |
| Chains.UpdateAt | myHashMap.java:179-185 | overwriting the node of key `k` keeps the table well formed, represents `m[k := v]`, and keeps the node count |
| Chains.RemoveAt | myHashMap.java:99-107 | unlinking the node of key `k` (which is in the map) keeps the table well formed, represents `m - {k}`, and removes one node |
| Chains.UnlinkKeepsChain | myHashMap.java:101-105 | the chain without the unlinked node still has distinct keys, all belonging to its slot |
| Chains.MoveNext | myHashMap.java:162-167 | during the rebuild, the next old node's key is not yet in the new table; after it moves, the moved/unmoved boundary advances by one |
| Chains.NextChain | myHashMap.java:162-163 | the end of one old chain and the start of the next split the old nodes the same way |
| Chains.NodeIsEntry | myHashMap.java:200-236 | every reachable node is an entry of the represented map, with the same value |
| Chains.EntryIsNode | myHashMap.java:82-92 | every entry of the represented map is a node in the chain of its key's slot |
| HashTable.MyHashMap.constructor | myHashMap.java:58-65 | the new table is valid and empty, with 10 buckets and size 0 |
| HashTable.OverLoaded | myHashMap.java:152 | for a positive bucket count, the resize test holds exactly when `size / numBuckets` is at least 7/10 |
| HashTable.MyHashMap.Consistent | myHashMap.java:40-57 | the buckets form a well-formed table of `numBuckets` chains, 10 times a power of two, that represents `Contents`; `size` is both the node count and the number of entries |
| HashTable.MyHashMap.Valid | myHashMap.java:152 | `Consistent` holds and the table is below the resize threshold, the state every public operation leaves |
| HashTable.MyHashMap.Size | myHashMap.java:67 | returns the number of entries |
| HashTable.MyHashMap.IsEmpty | myHashMap.java:68 | true exactly when the map is empty |
| HashTable.MyHashMap.Clear | myHashMap.java:70-76 | afterwards the map is empty, size is 0, every bucket is empty and `numBuckets` is unchanged |
| HashTable.MyHashMap.Get | myHashMap.java:82-92 | returns the key's value when present and None when absent; changes nothing |
| HashTable.MyHashMap.ContainsKey | myHashMap.java:212-214 | true exactly when the key is in the map |
| HashTable.MyHashMap.ContainsValue | myHashMap.java:200-210 | true exactly when some key maps to the value |
| HashTable.MyHashMap.KeySet | myHashMap.java:227-236 | returns exactly the keys of the map, so its size equals `size` |
| HashTable.MyHashMap.EntrySet | myHashMap.java:216-225 | returns exactly the (key, value) pairs of the map |
| HashTable.MyHashMap.Remove | myHashMap.java:94-113 | a present key: returns its value, the map loses only that key, size drops by 1, and the bucket list differs only by one unlinked node. An absent key: returns None and changes nothing |
| HashTable.MyHashMap.RemoveIfEquals | myHashMap.java:115-122 | removes and returns true exactly when the key is present with the given value; otherwise returns false and changes nothing |
| HashTable.MyHashMap.Replace | myHashMap.java:173-189 | never inserts. A present key gets the new value and the old value is returned. An absent key gives None and changes nothing |
| HashTable.MyHashMap.ReplaceIfEquals | myHashMap.java:191-198 | overwrites and returns true exactly when the key is present with the expected value; otherwise returns false and changes nothing |
| HashTable.MyHashMap.Put | myHashMap.java:124-171 | returns the previous value (None for a new key). The map becomes `old[key := value]`; size grows by 1 only for a new key. `numBuckets` doubles exactly when a new key reaches the load threshold. The table stays valid |
| HashTable.MyHashMap.Resize | myHashMap.java:152-168 | `numBuckets` doubles, the array length matches it, the map and size are unchanged, and the load is back under the threshold |
| HashTable.MyHashMap.MoveNode | myHashMap.java:163-166 | one inner re-put of the rebuild adds one entry of the old map to the new table and keeps it consistent |
| HashTable.MyHashMap.RebuildStep | myHashMap.java:152-164 | the node being moved is an entry of the old map, and the inner put's load test cannot fire |
| HashTable.MyHashMap.NodesAreEntries | myHashMap.java:162-167 | every node of the old bucket list has its key in the old map |
| JavaArith.Wrap32 | HashingProblems.java:108-111 | the result is congruent to the mathematical value mod 2^32, and equal to it when that value fits in an `int` |
| JavaArith.JavaQuot | HashingProblems.java:58 | Java's integer `/`: its magnitude is the quotient of the magnitudes, truncated toward zero |
| JavaArith.JavaRem | HashingProblems.java:58 | Java's `%` takes the dividend's sign and is smaller in magnitude than the divisor |
| JavaArith.JavaRemIsRemainder | HashingProblems.java:58 | Java's division identity `(a / b) * b + a % b == a` holds for every `a` and every `b != 0` |
| JavaArith.JavaRemTwoIsOddness | HashingProblems.java:58 | `key % 2 != 0` holds exactly of the odd keys, negative ones included |
| HashingProblems.MatchCount | HashingProblems.java:37-41 | the number of matches never exceeds the array length |
| HashingProblems.MatchSum | HashingProblems.java:37-41 | the summed values of matching elements: 0 when no element is a key, and never negative when no value is |
| HashingProblems.MatchCountIsPositions | HashingProblems.java:37-41 | `count` is the number of array positions whose element is a key; repeated elements count each time |
| HashingProblems.MatchCountZero | HashingProblems.java:44 | the count is 0 exactly when no array element is a key |
| HashingProblems.GetAverage | HashingProblems.java:33-45 | None (Java's NaN) exactly when no element is a key; otherwise the sum of the matched values divided by their count |
| HashingProblems.AverageExample | HashingProblems.java:26-30 | keys 1, 2 with values 10, 20 and array [1,2,7,8] give sum 30 over count 2 |
| HashingProblems.IsOddKey | HashingProblems.java:58 | Java's `key % 2 != 0` holds exactly of the odd keys, negative ones included |
| HashingProblems.OddStep | HashingProblems.java:57-61 | visiting one more key keeps the walk's invariant, appending that key's value exactly when the key is odd |
| HashingProblems.Odd | HashingProblems.java:54-63 | the result holds, for each odd key (negative ones included), that key's value exactly once and nothing else; its length is the number of odd keys |
| HashingProblems.OddExample | HashingProblems.java:57-58 | in {1,2,3,-1}, the odd keys are 1, 3 and -1 |
| HashingProblems.Probes | HashingProblems.java:108-113 | one element adds at most 2 to the count |
| HashingProblems.ForwardCount | HashingProblems.java:107-117 | the count is between 0 and twice the array length |
| HashingProblems.CountAtDistanceDistinct | HashingProblems.java:108-113 | among distinct values, for `k != 0`, exactly the elements equal to `n - k` and to `n + k` lie at distance `k` from `n`; at most one of each |
| HashingProblems.ProbesAreDistance | HashingProblems.java:108-113 | without overflow, the two set probes find exactly the earlier elements at distance `k` |
| HashingProblems.TwoSumsCountsPairs | HashingProblems.java:72-87 | for distinct values, `k != 0` and no overflow, the one-pass count equals the all-combinations count of pairs `i < j` with `a[j] - a[i]` equal to `k` or `-k` |
| HashingProblems.TwoSumsExample | HashingProblems.java:72-81 | [1,4,5,7,8,9] with k = 4 gives 3 |
| HashingProblems.TwoSumsZeroExample | HashingProblems.java:108-114 | with k = 0, a value seen before is counted twice, once per probe |
| HashingProblems.TwoSumsWrapExample | HashingProblems.java:108-111 | the wrapped probe makes [2147483647, -2147483648] with k = 1 count 1, while no pair differs by 1 |
| HashingProblems.TwoSums | HashingProblems.java:103-118 | returns the forward-pass count, each element probed only against earlier ones; the result is between 0 and `2 * numbers.Length` |

## Left out

- Node identity and aliasing are not modelled. A chain is a sequence of key/value values,
  so `prev.next = head.next` and `bucket.set(index, head.next)` become sequence updates of
  one slot. The in-place write `head.value = val` becomes a slot update as well.
- Null values are not modelled: values are never null, and absence is `None`. The re-scan
  in `put` (myHashMap.java:139-145) can only find the key when a null value is stored, so
  the model omits it.
- `hashCode()` and `equals()` on arbitrary keys become a fixed total function `hash` and
  Dafny equality.
- OverLoaded: it is not the Java float comparison. It differs from it only when
  `numBuckets` is above about 8 * 10^7.
- Integer overflow is not modelled for `size` and `numBuckets`. In Java, the doubling
  `2 * numBuckets` (myHashMap.java:155) overflows when the table grows from
  10 * 2^27 = 1,342,177,280 buckets, at about 9.4 * 10^8 entries. The fill loop at :158
  then adds no slot and the re-`put` at :164 fails. The model's `numBuckets` keeps doubling.
- Null keys are not modelled: the key type has no null. In Java, `key.hashCode()`
  (myHashMap.java:79) throws an exception for a null key. So `get`, `put`, both
  `remove`s, both `replace`s and `containsKey` throw on one.
- The `double` arithmetic of `getAverage` is not modelled. The sum is an exact integer and
  the quotient an exact `real`.
- TwoSums: the Java `count` is an `int`, and overflow of it is not modelled. It could
  overflow only for arrays of over 2^30 elements.
- TwoSumsCountsPairs: it requires distinct values, `k != 0` and no 32-bit overflow. Other
  inputs do not satisfy the pair-count equation. The set keeps one copy of each earlier
  value, so an element matches several equal earlier elements only once. With `k = 0`,
  both probes find the same value (see `TwoSumsZeroExample`).
- The iteration order of `HashSet` and `HashMap` is not modelled. `Odd` walks the key set
  in an arbitrary order and reports that order in its ghost result `order`.
- Thread safety, garbage collection and object allocation identity are not modelled.
