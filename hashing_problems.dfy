/**
 * `HashingProblems`: three one-pass exercises over a map or a set — the average of the
 * values of the array elements that are keys of a map, the values of a map's odd keys,
 * and how many earlier elements lie at distance `k` from each array element.
 */
module HashingProblems {
  import opened Options
  import opened JavaArith

  // ---------------------------------------------------------------- getAverage

  /** How many positions of `a` hold a key of `m`; a repeated element counts each time. */
  function MatchCount(m: map<int, int>, a: seq<int>): (n: nat)
    ensures n <= |a|
  {
    if a == [] then 0 else MatchCount(m, a[..|a| - 1]) + (if a[|a| - 1] in m then 1 else 0)
  }

  /** The sum of `m[x]` over the positions of `a` whose element `x` is a key of `m`. */
  function MatchSum(m: map<int, int>, a: seq<int>): (sum: int)
    ensures (forall i :: 0 <= i < |a| ==> a[i] !in m) ==> sum == 0
    ensures (forall x :: x in m ==> m[x] >= 0) ==> sum >= 0
  {
    if a == [] then 0
    else
      var init := a[..|a| - 1];
      var last := if a[|a| - 1] in m then m[a[|a| - 1]] else 0;
      assert forall i :: 0 <= i < |init| ==> init[i] == a[i];
      assert (forall x :: x in m ==> m[x] >= 0) ==> last >= 0;
      MatchSum(m, init) + last
  }

  /** `MatchCount` is the number of positions whose element is a key. */
  lemma {:induction false} MatchCountIsPositions(m: map<int, int>, a: seq<int>)
    ensures MatchCount(m, a) == |set i | 0 <= i < |a| && a[i] in m|
  {
    if a != [] {
      var n := |a| - 1;
      MatchCountIsPositions(m, a[..n]);
      var before := set i | 0 <= i < n && a[..n][i] in m;
      var after := set i | 0 <= i < |a| && a[i] in m;
      assert after == before + (if a[n] in m then {n} else {});
    }
  }

  /** No match at all exactly when no element of `a` is a key of `m`. */
  lemma {:induction false} MatchCountZero(m: map<int, int>, a: seq<int>)
    ensures MatchCount(m, a) == 0 <==> forall i :: 0 <= i < |a| ==> a[i] !in m
  {
    if a != [] {
      var n := |a| - 1;
      MatchCountZero(m, a[..n]);
      assert forall i :: 0 <= i < n ==> a[..n][i] == a[i];
    }
  }

  /** The example of the source's comment: keys 1 and 2 present with 10 and 20, keys 7 and 8 absent. */
  lemma AverageExample()
    ensures MatchSum(map[1 := 10, 2 := 20], [1, 2, 7, 8]) == 30
    ensures MatchCount(map[1 := 10, 2 := 20], [1, 2, 7, 8]) == 2
  {
    var m := map[1 := 10, 2 := 20];
    assert [1, 2, 7, 8][..3] == [1, 2, 7];
    assert [1, 2, 7][..2] == [1, 2];
    assert [1, 2][..1] == [1];
    assert [1][..0] == [];
  }

  /**
   * The average of `m`'s values over the elements of `a` that are keys of `m`, or None —
   * Java's NaN — when there is none. The quotient is exact: Java's double rounding is not
   * modelled.
   */
  method GetAverage(m: map<int, int>, a: array<int>) returns (average: Option<real>)
    ensures average.None? <==> forall i :: 0 <= i < a.Length ==> a[i] !in m
    ensures average.Some? ==>
              MatchCount(m, a[..]) > 0
              && average.value == MatchSum(m, a[..]) as real / MatchCount(m, a[..]) as real
  {
    var sum := 0;
    var count := 0;
    for i := 0 to a.Length
      invariant sum == MatchSum(m, a[..i])
      invariant count == MatchCount(m, a[..i])
    {
      assert a[..i + 1][..i] == a[..i];
      if a[i] in m {
        sum := sum + m[a[i]];
        count := count + 1;
      }
    }
    assert a[..a.Length] == a[..];
    MatchCountZero(m, a[..]);
    if count == 0 {
      average := None;
    } else {
      average := Some(sum as real / count as real);
    }
  }

  // ---------------------------------------------------------------- odd

  /** Java's `key % 2 != 0`. */
  function IsOddKey(key: int): (odd: bool)
    ensures odd <==> key % 2 == 1
  {
    JavaRemTwoIsOddness(key);
    JavaRem(key, 2) != 0
  }

  /** The keys of `m` that are odd. */
  ghost function OddKeys(m: map<int, string>): set<int> {
    set key | key in m && IsOddKey(key)
  }

  /** The values of the odd keys of `m`. */
  ghost function OddValues(m: map<int, string>): set<string> {
    set key | key in OddKeys(m) :: m[key]
  }

  /**
   * What the walk in `Odd` keeps: `result` holds the values of the odd keys visited so far
   * (those of `m` not in `keys`), one per key, in the order `order` records.
   */
  ghost predicate OddSoFar(m: map<int, string>, keys: set<int>, result: seq<string>, order: seq<int>) {
    && keys <= m.Keys
    && |result| == |order| == |OddKeys(m) - keys|
    && (forall i :: 0 <= i < |order| ==> order[i] in m && result[i] == m[order[i]])
    && (forall i, j :: 0 <= i < j < |order| ==> order[i] != order[j])
    && (forall key :: key in order <==> key in OddKeys(m) - keys)
  }

  /** Visiting one more key keeps `OddSoFar`, appending the key's value exactly when it is odd. */
  lemma OddStep(m: map<int, string>, keys: set<int>, result: seq<string>, order: seq<int>, key: int)
    requires OddSoFar(m, keys, result, order) && key in keys
    ensures IsOddKey(key) ==> OddSoFar(m, keys - {key}, result + [m[key]], order + [key])
    ensures !IsOddKey(key) ==> OddSoFar(m, keys - {key}, result, order)
  {
    if IsOddKey(key) {
      assert OddKeys(m) - (keys - {key}) == (OddKeys(m) - keys) + {key};
      var order' := order + [key];
      assert forall i :: 0 <= i < |order| ==> order'[i] == order[i];
    } else {
      assert OddKeys(m) - (keys - {key}) == OddKeys(m) - keys;
    }
  }

  /**
   * The values of the odd keys of `m`, one per key, in the order the key set is walked
   * (which Java leaves unspecified). `order` records that walk: `result[i]` is the value
   * of key `order[i]`.
   */
  method Odd(m: map<int, string>) returns (result: seq<string>, ghost order: seq<int>)
    ensures |result| == |OddKeys(m)|
    ensures forall i :: 0 <= i < |result| ==> result[i] in OddValues(m)
    ensures |order| == |result|
    ensures forall i :: 0 <= i < |order| ==> order[i] in m && result[i] == m[order[i]]
    ensures forall i, j :: 0 <= i < j < |order| ==> order[i] != order[j]
    ensures forall key :: key in order <==> key in OddKeys(m)
  {
    result, order := [], [];
    var keys := m.Keys;
    while keys != {}
      invariant OddSoFar(m, keys, result, order)
      decreases keys
    {
      var key :| key in keys;
      OddStep(m, keys, result, order, key);
      if IsOddKey(key) {
        result := result + [m[key]];
        order := order + [key];
      }
      keys := keys - {key};
    }
    assert OddKeys(m) - {} == OddKeys(m);
    forall i | 0 <= i < |result|
      ensures result[i] in OddValues(m)
    {
      assert order[i] in OddKeys(m);
    }
  }

  /** An example: keys 1, 3 and -1 are odd, 2 is not. */
  lemma OddExample()
    ensures OddKeys(map[1 := "a", 2 := "b", 3 := "c", -1 := "d"]) == {1, 3, -1}
  {
    var m := map[1 := "a", 2 := "b", 3 := "c", -1 := "d"];
    assert IsOddKey(1) && !IsOddKey(2) && IsOddKey(3) && IsOddKey(-1);
  }

  // ---------------------------------------------------------------- twoSums

  /**
   * What one element `n` adds to the count: one for `n - k` and one for `n + k` among
   * the earlier elements `seen`, both computed with Java's 32-bit wrap-around.
   */
  function Probes(seen: seq<int32>, n: int32, k: int32): (c: nat)
    ensures c <= 2
  {
    (if Wrap32(n as int - k as int) in seen then 1 else 0)
    + (if Wrap32(n as int + k as int) in seen then 1 else 0)
  }

  /** The count the one forward pass returns: each element probed against the earlier ones. */
  function ForwardCount(a: seq<int32>, k: int32): (c: nat)
    ensures c <= 2 * |a|
  {
    if a == [] then 0 else ForwardCount(a[..|a| - 1], k) + Probes(a[..|a| - 1], a[|a| - 1], k)
  }

  /** How many elements of `seen` lie at distance |k| from `n`. */
  function CountAtDistance(seen: seq<int32>, n: int32, k: int32): nat {
    if seen == [] then 0
    else CountAtDistance(seen[..|seen| - 1], n, k)
         + (if Abs(n as int - seen[|seen| - 1] as int) == Abs(k as int) then 1 else 0)
  }

  /**
   * The quadratic reference: every index pair `i < j` with |a[j] - a[i]| == |k|, found by
   * checking all combinations.
   */
  function PairCount(a: seq<int32>, k: int32): nat {
    if a == [] then 0 else PairCount(a[..|a| - 1], k) + CountAtDistance(a[..|a| - 1], a[|a| - 1], k)
  }

  predicate Distinct(a: seq<int32>) {
    forall i, j :: 0 <= i < j < |a| ==> a[i] != a[j]
  }

  /** Neither `x - k` nor `x + k` overflows a Java `int`, for every element `x`. */
  predicate NoOverflow(a: seq<int32>, k: int32) {
    forall i :: 0 <= i < |a| ==> InInt32(a[i] as int - k as int) && InInt32(a[i] as int + k as int)
  }

  /** In a sequence of distinct values, `n - k` and `n + k` (k != 0) each match at most one element. */
  lemma {:induction false} CountAtDistanceDistinct(seen: seq<int32>, n: int32, k: int32)
    requires Distinct(seen) && k != 0
    ensures CountAtDistance(seen, n, k)
            == (if n as int - k as int in IntsOf(seen) then 1 else 0)
               + (if n as int + k as int in IntsOf(seen) then 1 else 0)
  {
    if seen != [] {
      var p := seen[..|seen| - 1];
      var x := seen[|seen| - 1];
      assert Distinct(p);
      CountAtDistanceDistinct(p, n, k);
      assert IntsOf(seen) == IntsOf(p) + {x as int};
      assert x !in p;
      assert x as int !in IntsOf(p);
    }
  }

  /** The elements of `s` as mathematical integers. */
  ghost function IntsOf(s: seq<int32>): set<int> {
    set i | 0 <= i < |s| :: s[i] as int
  }

  lemma InIntsOf(s: seq<int32>, y: int32)
    ensures y in s <==> y as int in IntsOf(s)
  {
    if y as int in IntsOf(s) {
      var i :| 0 <= i < |s| && s[i] as int == y as int;
      assert s[i] == y;
    }
  }

  /** Without overflow, the two probes for `n` find exactly the earlier elements at distance |k|. */
  lemma ProbesAreDistance(seen: seq<int32>, n: int32, k: int32)
    requires Distinct(seen) && k != 0
    requires InInt32(n as int - k as int) && InInt32(n as int + k as int)
    ensures Probes(seen, n, k) == CountAtDistance(seen, n, k)
  {
    CountAtDistanceDistinct(seen, n, k);
    InIntsOf(seen, Wrap32(n as int - k as int));
    InIntsOf(seen, Wrap32(n as int + k as int));
  }

  /**
   * For distinct values, a non-zero `k` and no overflow, the forward pass counts exactly
   * the index pairs `i < j` whose elements differ by |k|.
   */
  lemma {:induction false} TwoSumsCountsPairs(a: seq<int32>, k: int32)
    requires Distinct(a) && k != 0 && NoOverflow(a, k)
    ensures ForwardCount(a, k) == PairCount(a, k)
  {
    if a != [] {
      var p := a[..|a| - 1];
      assert Distinct(p) && NoOverflow(p, k);
      TwoSumsCountsPairs(p, k);
      ProbesAreDistance(p, a[|a| - 1], k);
    }
  }

  /** The example of the source's comment: [1, 4, 5, 7, 8, 9] with k = 4 gives 3. */
  lemma TwoSumsExample()
    ensures ForwardCount([1, 4, 5, 7, 8, 9], 4) == 3
  {
    var a: seq<int32> := [1, 4, 5, 7, 8, 9];
    assert a[..1][..0] == [];
    assert ForwardCount(a[..1], 4) == 0;
    assert a[..2][..1] == a[..1];
    assert Probes(a[..1], 4, 4) == 0;
    assert ForwardCount(a[..2], 4) == 0;
    assert a[..3][..2] == a[..2];
    assert Probes(a[..2], 5, 4) == 1;
    assert ForwardCount(a[..3], 4) == 1;
    assert a[..4][..3] == a[..3];
    assert Probes(a[..3], 7, 4) == 0;
    assert ForwardCount(a[..4], 4) == 1;
    assert a[..5][..4] == a[..4];
    assert Probes(a[..4], 8, 4) == 1;
    assert ForwardCount(a[..5], 4) == 2;
    assert a[..6][..5] == a[..5] && a[..6] == a;
    assert Probes(a[..5], 9, 4) == 1;
  }

  /** With k = 0 both probes look for the element itself: a repeated value counts twice. */
  lemma TwoSumsZeroExample()
    ensures ForwardCount([3, 3], 0) == 2
  {
    var a: seq<int32> := [3, 3];
    assert a[..1] == [3];
  }

  /** Near the limits of `int`, a wrapped probe finds a value at a difference of 2^32 - 1. */
  lemma TwoSumsWrapExample()
    ensures ForwardCount([0x7fff_ffff, -0x8000_0000], 1) == 1
    ensures PairCount([0x7fff_ffff, -0x8000_0000], 1) == 0
  {
    var a: seq<int32> := [0x7fff_ffff, -0x8000_0000];
    assert a[..1] == [0x7fff_ffff] && a[..1][..0] == [];
    assert Wrap32(-0x8000_0000 - 1) == 0x7fff_ffff;
    assert CountAtDistance(a[..1], -0x8000_0000, 1) == 0;
  }

  /**
   * One forward pass: each element is checked against the set of the earlier elements
   * (for `num - k` and `num + k`) before it is added to that set.
   */
  method TwoSums(numbers: array<int32>, k: int32) returns (count: int)
    ensures count == ForwardCount(numbers[..], k)
    ensures 0 <= count <= 2 * numbers.Length
  {
    var seen: set<int32> := {};
    count := 0;
    for i := 0 to numbers.Length
      invariant forall x :: x in seen <==> x in numbers[..i]
      invariant count == ForwardCount(numbers[..i], k)
    {
      var num := numbers[i];
      ghost var before := numbers[..i];
      assert numbers[..i + 1][..i] == before && numbers[..i + 1][i] == num;
      assert ForwardCount(numbers[..i + 1], k) == count + Probes(before, num, k);
      if Wrap32(num as int - k as int) in seen {
        count := count + 1;
      }
      if Wrap32(num as int + k as int) in seen {
        count := count + 1;
      }
      seen := seen + {num};
      assert numbers[..i + 1] == before + [num];
    }
    assert numbers[..numbers.Length] == numbers[..];
  }
}
