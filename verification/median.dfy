/** The median helpers of the benchmarks (src/utils.c): the `qsort`
    comparators for `uint64_t` and `double`, and the median of an array after
    sorting it in place. `qsort`'s algorithm is not specified by C; it is
    modelled by an insertion sort, and `SortedUnique` shows that for these
    comparators every sorting algorithm leaves the same array. */
module Median {

  /** `uint64_t`: integers modulo 2^64. */
  const U64Modulus: int := 0x1_0000_0000_0000_0000
  type U64 = x: int | 0 <= x < U64Modulus

  /** `compare_uint64`: `(a > b) - (a < b)`. */
  function CompareU64(a: U64, b: U64): (r: int)
    ensures r == -1 <==> a < b
    ensures r == 0 <==> a == b
    ensures r == 1 <==> a > b
  {
    (if a > b then 1 else 0) - (if a < b then 1 else 0)
  }

  /** `compare_double`, on the doubles that are not NaN. */
  function CompareDouble(a: real, b: real): (r: int)
    ensures r == -1 <==> a < b
    ensures r == 0 <==> a == b
    ensures r == 1 <==> a > b
  {
    (if a > b then 1 else 0) - (if a < b then 1 else 0)
  }

  /** `cmp` orders elements as `key` orders their values: the comparators
      here compare numbers, so "not after" is `<=` on a numeric key, which
      makes it total and transitive as `qsort` requires. */
  ghost predicate OrderedBy<T(!new)>(cmp: (T, T) -> int, key: T -> real)
  {
    forall a, b :: cmp(a, b) <= 0 <==> key(a) <= key(b)
  }

  /** Distinct elements have distinct keys: elements that compare equal are
      equal. */
  ghost predicate Injective<T(!new)>(key: T -> real)
  {
    forall a, b :: key(a) == key(b) ==> a == b
  }

  function U64Key(x: U64): real
  {
    x as real
  }

  function DoubleKey(x: real): real
  {
    x
  }

  /** Both comparators order their values numerically. */
  lemma CompareU64Order()
    ensures OrderedBy(CompareU64, U64Key) && Injective(U64Key)
  {
  }

  lemma CompareDoubleOrder()
    ensures OrderedBy(CompareDouble, DoubleKey) && Injective(DoubleKey)
  {
  }

  /** Non-decreasing under `cmp`: no element comes after its successor. */
  ghost predicate Sorted<T>(s: seq<T>, cmp: (T, T) -> int)
  {
    forall i :: 0 < i < |s| ==> cmp(s[i - 1], s[i]) <= 0
  }

  /** `x` placed before the first element it is not after. */
  function Insert<T>(x: T, s: seq<T>, cmp: (T, T) -> int): (r: seq<T>)
    ensures |r| == |s| + 1
    ensures r[0] == x || (|s| > 0 && r[0] == s[0])
    ensures multiset(r) == multiset(s) + multiset{x}
  {
    if |s| == 0 then [x]
    else if cmp(x, s[0]) <= 0 then [x] + s
    else
      assert s == [s[0]] + s[1..];
      [s[0]] + Insert(x, s[1..], cmp)
  }

  /** The sorting step of `median_double` and `median_uint64`. */
  function SortBy<T>(s: seq<T>, cmp: (T, T) -> int): (r: seq<T>)
    ensures |r| == |s|
    ensures multiset(r) == multiset(s)
  {
    if |s| == 0 then []
    else
      assert s == [s[0]] + s[1..];
      Insert(s[0], SortBy(s[1..], cmp), cmp)
  }

  lemma {:induction false} InsertSorted<T(!new)>(x: T, s: seq<T>, cmp: (T, T) -> int, key: T -> real)
    requires OrderedBy(cmp, key) && Sorted(s, cmp)
    ensures Sorted(Insert(x, s, cmp), cmp)
  {
    if |s| > 0 && cmp(x, s[0]) > 0 {
      var rest := Insert(x, s[1..], cmp);
      InsertSorted(x, s[1..], cmp, key);
      assert cmp(s[0], rest[0]) <= 0 by {
        if rest[0] != x {
          assert rest[0] == s[1];
        }
      }
      var r := [s[0]] + rest;
      forall i | 0 < i < |r|
        ensures cmp(r[i - 1], r[i]) <= 0
      {
        if i > 1 {
          assert r[i - 1] == rest[i - 2] && r[i] == rest[i - 1];
        }
      }
    }
  }

  /** The sorted array is non-decreasing and holds the same elements. */
  lemma {:induction false} SortSorted<T(!new)>(s: seq<T>, cmp: (T, T) -> int, key: T -> real)
    requires OrderedBy(cmp, key)
    ensures Sorted(SortBy(s, cmp), cmp)
    ensures multiset(SortBy(s, cmp)) == multiset(s)
  {
    if |s| > 0 {
      SortSorted(s[1..], cmp, key);
      InsertSorted(s[0], SortBy(s[1..], cmp), cmp, key);
    }
  }

  /** No element of a sorted sequence has a smaller key than the first. */
  lemma {:induction false} FirstIsLeast<T(!new)>(s: seq<T>, cmp: (T, T) -> int, key: T -> real, k: nat)
    requires OrderedBy(cmp, key) && Sorted(s, cmp) && k < |s|
    ensures key(s[0]) <= key(s[k])
  {
    if k > 0 {
      FirstIsLeast(s, cmp, key, k - 1);
      assert cmp(s[k - 1], s[k]) <= 0;
    }
  }

  /** Two sorted arrangements of the same non-empty multiset start alike. */
  lemma SameFirst<T(!new)>(s: seq<T>, t: seq<T>, cmp: (T, T) -> int, key: T -> real)
    requires OrderedBy(cmp, key) && Injective(key)
    requires Sorted(s, cmp) && Sorted(t, cmp) && multiset(s) == multiset(t) && |s| > 0
    ensures |t| > 0 && s[0] == t[0]
  {
    assert s[0] in multiset(t);
    var k :| 0 <= k < |t| && t[k] == s[0];
    FirstIsLeast(t, cmp, key, k);
    assert t[0] in multiset(s);
    var l :| 0 <= l < |s| && s[l] == t[0];
    FirstIsLeast(s, cmp, key, l);
  }

  /** Dropping the first element of a sorted sequence leaves a sorted sequence
      holding the rest of the multiset. */
  lemma Rest<T>(s: seq<T>, cmp: (T, T) -> int)
    requires Sorted(s, cmp) && |s| > 0
    ensures Sorted(s[1..], cmp)
    ensures multiset(s[1..]) == multiset(s) - multiset{s[0]}
  {
    assert s == [s[0]] + s[1..];
    forall i | 0 < i < |s| - 1 ensures cmp(s[1..][i - 1], s[1..][i]) <= 0 {
      assert s[1..][i - 1] == s[i] && s[1..][i] == s[i + 1];
    }
  }

  /** Two sorted arrangements of the same non-empty multiset agree on their
      first element, and their rests are again two such arrangements. */
  lemma Peel<T(!new)>(s: seq<T>, t: seq<T>, cmp: (T, T) -> int, key: T -> real)
    requires OrderedBy(cmp, key) && Injective(key)
    requires Sorted(s, cmp) && Sorted(t, cmp) && multiset(s) == multiset(t) && |s| > 0
    ensures |t| > 0 && s[0] == t[0]
    ensures Sorted(s[1..], cmp) && Sorted(t[1..], cmp) && multiset(s[1..]) == multiset(t[1..])
  {
    SameFirst(s, t, cmp, key);
    Rest(s, cmp);
    Rest(t, cmp);
  }

  /** Sequences with the same first element and the same rest are equal. */
  lemma Cons<T>(s: seq<T>, t: seq<T>)
    requires |s| > 0 && |t| > 0 && s[0] == t[0] && s[1..] == t[1..]
    ensures s == t
  {
    assert s == [s[0]] + s[1..] && t == [t[0]] + t[1..];
  }

  /** For a numeric order there is only one sorted arrangement of a multiset,
      so the result does not depend on how `qsort` sorts. */
  lemma {:induction false} SortedUnique<T(!new)>(s: seq<T>, t: seq<T>, cmp: (T, T) -> int, key: T -> real)
    requires OrderedBy(cmp, key) && Injective(key)
    requires Sorted(s, cmp) && Sorted(t, cmp) && multiset(s) == multiset(t)
    ensures s == t
  {
    if |s| == 0 {
      assert |multiset(t)| == 0;
    } else {
      Peel(s, t, cmp, key);
      SortedUnique(s[1..], t[1..], cmp, key);
      Cons(s, t);
    }
  }

  /** The even-length branch of `median_uint64` as written: `lo + hi + 1` is
      computed in `uint64_t` and wraps modulo 2^64 before the halving. */
  function MedianOfSortedU64AsWritten(s: seq<U64>): (r: U64)
    requires |s| >= 1
    ensures |s| % 2 == 1 ==> r == s[|s| / 2]
    ensures |s| % 2 == 0 && s[|s| / 2 - 1] as int + s[|s| / 2] + 1 < U64Modulus ==>
      r == (s[|s| / 2 - 1] as int + s[|s| / 2] + 1) / 2
  {
    if |s| % 2 == 0 then
      (s[|s| / 2 - 1] as int + s[|s| / 2] + 1) % U64Modulus / 2
    else
      s[|s| / 2]
  }

  /** Two largest values: their sum wraps, and the as-written median is half
      the modulus minus one, below both middle elements. */
  lemma MedianU64WrapCounterexample()
    ensures MedianOfSortedU64AsWritten([U64Modulus - 1, U64Modulus - 1]) == U64Modulus / 2 - 1
    ensures MedianOfSortedU64(([U64Modulus - 1, U64Modulus - 1])) == U64Modulus - 1
  {
  }

  /** The average of the two middle elements rounded up, computed from their
      halves so that no intermediate value leaves `uint64_t`. */
  function MedianOfSortedU64(s: seq<U64>): (r: U64)
    requires |s| >= 1
    ensures |s| % 2 == 1 ==> r == s[|s| / 2]
    ensures |s| % 2 == 0 ==> r == (s[|s| / 2 - 1] as int + s[|s| / 2] + 1) / 2
    ensures |s| % 2 == 0 && s[|s| / 2 - 1] <= s[|s| / 2] ==> s[|s| / 2 - 1] <= r <= s[|s| / 2]
  {
    if |s| % 2 == 0 then
      var lo, hi := s[|s| / 2 - 1], s[|s| / 2];
      lo / 2 + hi / 2 + (lo % 2 + hi % 2 + 1) / 2
    else
      s[|s| / 2]
  }

  /** Where `lo + hi + 1` does not wrap, the source's expression is the
      intended one. */
  lemma MedianU64AsWrittenAgrees(s: seq<U64>)
    requires |s| >= 1
    requires |s| % 2 == 0 ==> s[|s| / 2 - 1] as int + s[|s| / 2] + 1 < U64Modulus
    ensures MedianOfSortedU64AsWritten(s) == MedianOfSortedU64(s)
  {
  }

  /** `median_uint64` as written: sorts the array in place and returns its
      median, with the even-length average computed in `uint64_t`. Length 0
      would read index -1, so at least one element is required. Where
      `lo + hi + 1` wraps, the result is the wrapped value of
      `MedianOfSortedU64AsWritten`. */
  method MedianU64(values: seq<U64>) returns (sorted: seq<U64>, median: U64)
    requires |values| >= 1
    ensures |sorted| == |values|
    ensures multiset(sorted) == multiset(values) && Sorted(sorted, CompareU64)
    ensures median == MedianOfSortedU64AsWritten(sorted)
    ensures |values| % 2 == 1 ==> median == sorted[|values| / 2]
    ensures |values| % 2 == 0 && sorted[|values| / 2 - 1] as int + sorted[|values| / 2] + 1 < U64Modulus ==>
      median == (sorted[|values| / 2 - 1] as int + sorted[|values| / 2] + 1) / 2 &&
      sorted[|values| / 2 - 1] <= median <= sorted[|values| / 2]
  {
    CompareU64Order();
    SortSorted(values, CompareU64, U64Key);
    sorted := SortBy(values, CompareU64);
    if |sorted| % 2 == 0 {
      assert CompareU64(sorted[|sorted| / 2 - 1], sorted[|sorted| / 2]) <= 0;
    }
    median := MedianOfSortedU64AsWritten(sorted);
  }

  /** `median_uint64` with the average computed without wrapping: the rounded-up
      average of the two middle elements, which always lies between them. */
  method MedianU64Intended(values: seq<U64>) returns (sorted: seq<U64>, median: U64)
    requires |values| >= 1
    ensures |sorted| == |values|
    ensures multiset(sorted) == multiset(values) && Sorted(sorted, CompareU64)
    ensures |values| % 2 == 1 ==> median == sorted[|values| / 2]
    ensures |values| % 2 == 0 ==> median == (sorted[|values| / 2 - 1] as int + sorted[|values| / 2] + 1) / 2
    ensures |values| % 2 == 0 ==> sorted[|values| / 2 - 1] <= median <= sorted[|values| / 2]
  {
    CompareU64Order();
    SortSorted(values, CompareU64, U64Key);
    sorted := SortBy(values, CompareU64);
    if |sorted| % 2 == 0 {
      assert CompareU64(sorted[|sorted| / 2 - 1], sorted[|sorted| / 2]) <= 0;
    }
    median := MedianOfSortedU64(sorted);
  }

  /** The median selection of `median_double` in exact arithmetic: the
      middle element, or the midpoint of the two middle elements. */
  function MedianOfSortedDouble(s: seq<real>): (r: real)
    requires |s| >= 1
    ensures |s| % 2 == 1 ==> r == s[|s| / 2]
    ensures |s| % 2 == 0 ==> r - s[|s| / 2 - 1] == s[|s| / 2] - r
    ensures |s| % 2 == 0 && s[|s| / 2 - 1] <= s[|s| / 2] ==> s[|s| / 2 - 1] <= r <= s[|s| / 2]
  {
    if |s| % 2 == 0 then
      0.5 * (s[|s| / 2 - 1] + s[|s| / 2])
    else
      s[|s| / 2]
  }

  /** `median_double`: sorts the array in place and returns its median. */
  method MedianDouble(values: seq<real>) returns (sorted: seq<real>, median: real)
    requires |values| >= 1
    ensures |sorted| == |values|
    ensures multiset(sorted) == multiset(values) && Sorted(sorted, CompareDouble)
    ensures |values| % 2 == 1 ==> median == sorted[|values| / 2]
    ensures |values| % 2 == 0 ==> sorted[|values| / 2 - 1] <= median <= sorted[|values| / 2]
    ensures |values| % 2 == 0 ==> median - sorted[|values| / 2 - 1] == sorted[|values| / 2] - median
  {
    CompareDoubleOrder();
    SortSorted(values, CompareDouble, DoubleKey);
    sorted := SortBy(values, CompareDouble);
    if |sorted| % 2 == 0 {
      assert CompareDouble(sorted[|sorted| / 2 - 1], sorted[|sorted| / 2]) <= 0;
    }
    median := MedianOfSortedDouble(sorted);
  }

  /** Whatever order `qsort` leaves the array in, the median is the same. */
  lemma MedianU64Determined(values: seq<U64>, sorted: seq<U64>)
    requires |values| >= 1
    requires multiset(sorted) == multiset(values) && Sorted(sorted, CompareU64)
    ensures sorted == SortBy(values, CompareU64)
    ensures MedianOfSortedU64AsWritten(sorted) == MedianOfSortedU64AsWritten(SortBy(values, CompareU64))
    ensures MedianOfSortedU64(sorted) == MedianOfSortedU64(SortBy(values, CompareU64))
  {
    CompareU64Order();
    SortSorted(values, CompareU64, U64Key);
    SortedUnique(sorted, SortBy(values, CompareU64), CompareU64, U64Key);
  }
}
