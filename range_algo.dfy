/**
  `lower_bound` of ccystl/algorithm/range_algo.h, over a sequence `s` whose iterators are
  the indices `0 ..= |s|`.  The comparator overload is modelled; the `<` overload is the
  same loop with `comp` = `Functional.Less`.
 */
module RangeAlgo {
  import opened Order
  import Functional

  /** The elements ordered before `value` form a prefix of `s`: the condition under which
      lower_bound finds the boundary.  A range sorted by `comp` has it (SortedPartitioned). */
  ghost predicate Partitioned<T>(s: seq<T>, value: T, comp: (T, T) -> bool) {
    forall i, j :: 0 <= i < j < |s| && comp(s[j], value) ==> comp(s[i], value)
  }

  /** The search narrowing `[first, last)`: the middle element is compared with `value`,
      and the half that cannot hold the boundary is dropped. */
  function LowerBoundFrom<T>(s: seq<T>, value: T, comp: (T, T) -> bool, first: nat, last: nat): (r: nat)
    requires first <= last <= |s|
    ensures first <= r <= last
    decreases last - first
  {
    if first == last then first
    else
      var mid := first + (last - first) / 2;
      if comp(s[mid], value) then LowerBoundFrom(s, value, comp, mid + 1, last)
      else LowerBoundFrom(s, value, comp, first, mid)
  }

  /** lower_bound(first, last, value, comp). */
  method LowerBound<T>(s: seq<T>, value: T, comp: (T, T) -> bool) returns (r: nat)
    ensures r <= |s| && r == LowerBoundFrom(s, value, comp, 0, |s|)
    ensures Partitioned(s, value, comp) ==>
              (forall i :: 0 <= i < r ==> comp(s[i], value)) &&
              (forall i :: r <= i < |s| ==> !comp(s[i], value))
  {
    var first, last := 0, |s|;
    while first != last
      invariant first <= last <= |s|
      invariant LowerBoundFrom(s, value, comp, first, last) == LowerBoundFrom(s, value, comp, 0, |s|)
      decreases last - first
    {
      var mid := first + (last - first) / 2;
      if comp(s[mid], value) {
        first := mid + 1;
      } else {
        last := mid;
      }
    }
    r := first;
    if Partitioned(s, value, comp) {
      LowerBoundCorrect(s, value, comp);
    }
  }

  /** On a partitioned range, lower_bound returns the boundary: every element before it is
      ordered before `value`, and none from it on is. */
  lemma {:induction false} LowerBoundSplits<T>(s: seq<T>, value: T, comp: (T, T) -> bool, first: nat, last: nat)
    requires first <= last <= |s| && Partitioned(s, value, comp)
    requires forall i :: 0 <= i < first ==> comp(s[i], value)
    requires forall i :: last <= i < |s| ==> !comp(s[i], value)
    ensures forall i :: 0 <= i < LowerBoundFrom(s, value, comp, first, last) ==> comp(s[i], value)
    ensures forall i :: LowerBoundFrom(s, value, comp, first, last) <= i < |s| ==> !comp(s[i], value)
    decreases last - first
  {
    if first < last {
      var mid := first + (last - first) / 2;
      if comp(s[mid], value) {
        LowerBoundSplits(s, value, comp, mid + 1, last);
      } else {
        LowerBoundSplits(s, value, comp, first, mid);
      }
    }
  }

  /** The whole-range form of LowerBoundSplits. */
  lemma LowerBoundCorrect<T>(s: seq<T>, value: T, comp: (T, T) -> bool)
    requires Partitioned(s, value, comp)
    ensures forall i :: 0 <= i < LowerBoundFrom(s, value, comp, 0, |s|) ==> comp(s[i], value)
    ensures forall i :: LowerBoundFrom(s, value, comp, 0, |s|) <= i < |s| ==> !comp(s[i], value)
  {
    LowerBoundSplits(s, value, comp, 0, |s|);
  }

  /** When every element of `[first, last)` is ordered before `value`, the search returns
      `last`. */
  lemma {:induction false} AllBeforeGivesLast<T>(s: seq<T>, value: T, comp: (T, T) -> bool, first: nat, last: nat)
    requires first <= last <= |s|
    requires forall i :: first <= i < last ==> comp(s[i], value)
    ensures LowerBoundFrom(s, value, comp, first, last) == last
    decreases last - first
  {
    if first < last {
      var mid := first + (last - first) / 2;
      assert comp(s[mid], value);
      AllBeforeGivesLast(s, value, comp, mid + 1, last);
    }
  }

  /** When no element of `[first, last)` is ordered before `value`, the search returns
      `first`. */
  lemma {:induction false} NoneBeforeGivesFirst<T>(s: seq<T>, value: T, comp: (T, T) -> bool, first: nat, last: nat)
    requires first <= last <= |s|
    requires forall i :: first <= i < last ==> !comp(s[i], value)
    ensures LowerBoundFrom(s, value, comp, first, last) == first
    decreases last - first
  {
    if first < last {
      var mid := first + (last - first) / 2;
      assert !comp(s[mid], value);
      NoneBeforeGivesFirst(s, value, comp, first, mid);
    }
  }

  /** A range sorted by a strict weak order is partitioned by every value. */
  lemma SortedPartitioned<T(!new)>(s: seq<T>, value: T, comp: (T, T) -> bool)
    requires StrictWeakOrder(comp) && Sorted(s, comp)
    ensures Partitioned(s, value, comp)
  {
    forall i, j | 0 <= i < j < |s| && comp(s[j], value)
      ensures comp(s[i], value)
    {
      if !comp(s[i], value) {
        NotBeforeTransitive(comp, s[j], s[i], value);
      }
    }
  }

  /** The `<` overload on integers: on a non-decreasing sequence the result splits it into
      the elements below `value` and the rest. */
  lemma LowerBoundOfInts(s: seq<int>, value: int)
    requires forall i, j :: 0 <= i < j < |s| ==> s[i] <= s[j]
    ensures forall i :: 0 <= i < LowerBoundFrom(s, value, Functional.Less, 0, |s|) ==> s[i] < value
    ensures forall i :: LowerBoundFrom(s, value, Functional.Less, 0, |s|) <= i < |s| ==> value <= s[i]
  {
    Functional.LessIsStrictTotalOrder();
    assert Sorted(s, Functional.Less);
    SortedPartitioned(s, value, Functional.Less);
    LowerBoundCorrect(s, value, Functional.Less);
  }
}
