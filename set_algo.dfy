/**
  The four set algorithms of ccystl/algorithm/set_algo.h: set_union, set_intersection,
  set_difference and set_symmetric_difference.

  The input ranges `[first1, last1)` and `[first2, last2)` are the sequences `a` and `b`;
  the output iterator `result` is the index `result` into the array `out`, and the
  iterator returned is the index returned.  Each algorithm is a specification function
  that takes the same steps as the source's loop, and a method with that loop, proved to
  write exactly the specification's output at `out[result..]` and nothing else.  The `<`
  overloads are the comparator overloads with `comp == Functional.Less`.

  set_union as written advances the first cursor where it outputs the second range's
  element; UnionAsWritten models that code and Union the union it is meant to compute.
 */
module SetAlgo {
  import opened Order
  import Functional

  function Max(x: int, y: int): (r: int) { if x < y then y else x }
  function Min(x: int, y: int): (r: int) { if x < y then x else y }

  // ---------------------------------------------------------------------------------------
  // Specification functions

  /** set_union as it is written: in the branch where the second range's element is
      ordered first, that element is output but the FIRST cursor advances. */
  function UnionAsWritten<T>(a: seq<T>, b: seq<T>, comp: (T, T) -> bool): (r: seq<T>)
    decreases |a| + |b|
  {
    if |a| == 0 then b
    else if |b| == 0 then a
    else if comp(a[0], b[0]) then [a[0]] + UnionAsWritten(a[1..], b, comp)
    else if comp(b[0], a[0]) then [b[0]] + UnionAsWritten(a[1..], b, comp)
    else [a[0]] + UnionAsWritten(a[1..], b[1..], comp)
  }

  /** set_union as it is meant to be: the branch that outputs the second range's element
      advances the second cursor. */
  function Union<T>(a: seq<T>, b: seq<T>, comp: (T, T) -> bool): (r: seq<T>)
    ensures |r| <= |a| + |b|
    decreases |a| + |b|
  {
    if |a| == 0 then b
    else if |b| == 0 then a
    else if comp(a[0], b[0]) then [a[0]] + Union(a[1..], b, comp)
    else if comp(b[0], a[0]) then [b[0]] + Union(a, b[1..], comp)
    else [a[0]] + Union(a[1..], b[1..], comp)
  }

  /** set_intersection: equivalent heads give one output element from the first range;
      otherwise the cursor at the head ordered first advances. */
  function Intersection<T>(a: seq<T>, b: seq<T>, comp: (T, T) -> bool): (r: seq<T>)
    ensures |r| <= |a| && |r| <= |b|
    decreases |a| + |b|
  {
    if |a| == 0 || |b| == 0 then []
    else if comp(a[0], b[0]) then Intersection(a[1..], b, comp)
    else if comp(b[0], a[0]) then Intersection(a, b[1..], comp)
    else [a[0]] + Intersection(a[1..], b[1..], comp)
  }

  /** set_difference: a head of the first range ordered before the second's is output;
      equivalent heads are both dropped; the rest of the first range is copied. */
  function Difference<T>(a: seq<T>, b: seq<T>, comp: (T, T) -> bool): (r: seq<T>)
    ensures |r| <= |a|
    decreases |a| + |b|
  {
    if |a| == 0 then []
    else if |b| == 0 then a
    else if comp(a[0], b[0]) then [a[0]] + Difference(a[1..], b, comp)
    else if comp(b[0], a[0]) then Difference(a, b[1..], comp)
    else Difference(a[1..], b[1..], comp)
  }

  /** set_symmetric_difference: the head ordered first is output; equivalent heads are both
      dropped; the rest of either range is copied. */
  function SymmetricDifference<T>(a: seq<T>, b: seq<T>, comp: (T, T) -> bool): (r: seq<T>)
    ensures |r| <= |a| + |b|
    decreases |a| + |b|
  {
    if |a| == 0 then b
    else if |b| == 0 then a
    else if comp(a[0], b[0]) then [a[0]] + SymmetricDifference(a[1..], b, comp)
    else if comp(b[0], a[0]) then [b[0]] + SymmetricDifference(a, b[1..], comp)
    else SymmetricDifference(a[1..], b[1..], comp)
  }

  // ---------------------------------------------------------------------------------------
  // The defect of set_union

  /** As written, set_union of [2] and [1] outputs [1, 1]: the 2 is lost and the 1 is
      doubled.  The intended union is [1, 2]. */
  lemma UnionAsWrittenLosesElements()
    ensures UnionAsWritten([2], [1], Functional.Less) == [1, 1]
    ensures Union([2], [1], Functional.Less) == [1, 2]
    ensures multiset(UnionAsWritten([2], [1], Functional.Less))[2] == 0
    ensures multiset(Union([2], [1], Functional.Less))[2] == 1
  {
    var a, b := [2], [1];
    assert a[1..] == [] && b[1..] == [];
    assert UnionAsWritten(a[1..], b, Functional.Less) == [1];
    assert Union(a, b[1..], Functional.Less) == [2];
    assert multiset([1, 1])[2] == 0;
  }

  /** The code as written and the intended union differ exactly when a head of the second
      range is ordered first; on every other step they agree. */
  lemma {:induction false} UnionAsWrittenAgrees<T>(a: seq<T>, b: seq<T>, comp: (T, T) -> bool)
    requires forall i, j :: 0 <= i < |a| && 0 <= j < |b| ==> !comp(b[j], a[i])
    ensures UnionAsWritten(a, b, comp) == Union(a, b, comp)
    decreases |a| + |b|
  {
    if |a| > 0 && |b| > 0 {
      assert !comp(b[0], a[0]);
      if comp(a[0], b[0]) {
        UnionAsWrittenAgrees(a[1..], b, comp);
      } else {
        UnionAsWrittenAgrees(a[1..], b[1..], comp);
      }
    }
  }

  // ---------------------------------------------------------------------------------------
  // Sorted inputs give sorted outputs

  lemma SortedTail<T>(s: seq<T>, comp: (T, T) -> bool)
    requires |s| > 0 && Sorted(s, comp)
    ensures Sorted(s[1..], comp) && NotBelow(s[1..], s[0], comp)
  {
    assert forall k :: 0 < k < |s| ==> s[1..][k - 1] == s[k];
  }

  lemma SortedCons<T>(h: T, r: seq<T>, comp: (T, T) -> bool)
    requires Sorted(r, comp) && NotBelow(r, h, comp)
    ensures Sorted([h] + r, comp)
  {
    var s := [h] + r;
    forall i, j | 0 <= i < j < |s|
      ensures !comp(s[j], s[i])
    {
      assert s[j] == r[j - 1];
      if i > 0 {
        assert s[i] == r[i - 1];
      }
    }
  }

  /** A lower bound of every element of a sorted sequence's head is one of every element. */
  lemma NotBelowHead<T(!new)>(s: seq<T>, x: T, comp: (T, T) -> bool)
    requires StrictWeakOrder(comp)
    requires |s| > 0 && Sorted(s, comp) && !comp(s[0], x)
    ensures NotBelow(s, x, comp)
  {
    forall k | 0 <= k < |s|
      ensures !comp(s[k], x)
    {
      if k > 0 {
        NotBeforeTransitive(comp, s[k], s[0], x);
      }
    }
  }

  lemma NotBelowTail<T>(s: seq<T>, x: T, comp: (T, T) -> bool)
    requires |s| > 0 && NotBelow(s, x, comp)
    ensures NotBelow(s[1..], x, comp)
  {
    assert forall k :: 0 <= k < |s| - 1 ==> s[1..][k] == s[k + 1];
  }

  /** Every element of the union is an element of one of the ranges, so a lower bound of
      both ranges bounds it. */
  lemma {:induction false} UnionNotBelow<T>(a: seq<T>, b: seq<T>, x: T, comp: (T, T) -> bool)
    requires NotBelow(a, x, comp) && NotBelow(b, x, comp)
    ensures NotBelow(Union(a, b, comp), x, comp)
    decreases |a| + |b|
  {
    if |a| > 0 && |b| > 0 {
      NotBelowTail(a, x, comp);
      NotBelowTail(b, x, comp);
      if comp(a[0], b[0]) {
        UnionNotBelow(a[1..], b, x, comp);
      } else if comp(b[0], a[0]) {
        UnionNotBelow(a, b[1..], x, comp);
      } else {
        UnionNotBelow(a[1..], b[1..], x, comp);
      }
    }
  }

  lemma {:induction false} IntersectionNotBelow<T>(a: seq<T>, b: seq<T>, x: T, comp: (T, T) -> bool)
    requires NotBelow(a, x, comp)
    ensures NotBelow(Intersection(a, b, comp), x, comp)
    decreases |a| + |b|
  {
    if |a| > 0 && |b| > 0 {
      NotBelowTail(a, x, comp);
      if comp(a[0], b[0]) {
        IntersectionNotBelow(a[1..], b, x, comp);
      } else if comp(b[0], a[0]) {
        IntersectionNotBelow(a, b[1..], x, comp);
      } else {
        IntersectionNotBelow(a[1..], b[1..], x, comp);
      }
    }
  }

  lemma {:induction false} DifferenceNotBelow<T>(a: seq<T>, b: seq<T>, x: T, comp: (T, T) -> bool)
    requires NotBelow(a, x, comp)
    ensures NotBelow(Difference(a, b, comp), x, comp)
    decreases |a| + |b|
  {
    if |a| > 0 && |b| > 0 {
      NotBelowTail(a, x, comp);
      if comp(a[0], b[0]) {
        DifferenceNotBelow(a[1..], b, x, comp);
      } else if comp(b[0], a[0]) {
        DifferenceNotBelow(a, b[1..], x, comp);
      } else {
        DifferenceNotBelow(a[1..], b[1..], x, comp);
      }
    }
  }

  lemma {:induction false} SymmetricDifferenceNotBelow<T>(a: seq<T>, b: seq<T>, x: T, comp: (T, T) -> bool)
    requires NotBelow(a, x, comp) && NotBelow(b, x, comp)
    ensures NotBelow(SymmetricDifference(a, b, comp), x, comp)
    decreases |a| + |b|
  {
    if |a| > 0 && |b| > 0 {
      NotBelowTail(a, x, comp);
      NotBelowTail(b, x, comp);
      if comp(a[0], b[0]) {
        SymmetricDifferenceNotBelow(a[1..], b, x, comp);
      } else if comp(b[0], a[0]) {
        SymmetricDifferenceNotBelow(a, b[1..], x, comp);
      } else {
        SymmetricDifferenceNotBelow(a[1..], b[1..], x, comp);
      }
    }
  }

  /** The union of two sorted ranges is sorted. */
  lemma {:induction false} UnionSorted<T(!new)>(a: seq<T>, b: seq<T>, comp: (T, T) -> bool)
    requires StrictWeakOrder(comp) && Sorted(a, comp) && Sorted(b, comp)
    ensures Sorted(Union(a, b, comp), comp)
    decreases |a| + |b|
  {
    if |a| > 0 && |b| > 0 {
      SortedTail(a, comp);
      SortedTail(b, comp);
      if comp(a[0], b[0]) {
        UnionSorted(a[1..], b, comp);
        Asymmetric(comp, a[0], b[0]);
        NotBelowHead(b, a[0], comp);
        UnionNotBelow(a[1..], b, a[0], comp);
        SortedCons(a[0], Union(a[1..], b, comp), comp);
      } else if comp(b[0], a[0]) {
        UnionSorted(a, b[1..], comp);
        Asymmetric(comp, b[0], a[0]);
        NotBelowHead(a, b[0], comp);
        UnionNotBelow(a, b[1..], b[0], comp);
        SortedCons(b[0], Union(a, b[1..], comp), comp);
      } else {
        UnionSorted(a[1..], b[1..], comp);
        UnionNotBelowPair(a, b, comp);
      }
    }
  }

  /** The equal-heads step of UnionSorted. */
  lemma UnionNotBelowPair<T(!new)>(a: seq<T>, b: seq<T>, comp: (T, T) -> bool)
    requires StrictWeakOrder(comp) && |a| > 0 && |b| > 0 && Sorted(a, comp) && Sorted(b, comp)
    requires !comp(a[0], b[0]) && !comp(b[0], a[0]) && Sorted(Union(a[1..], b[1..], comp), comp)
    ensures Sorted([a[0]] + Union(a[1..], b[1..], comp), comp)
  {
    SortedTail(a, comp);
    SortedTail(b, comp);
    forall k | 0 <= k < |b| - 1
      ensures !comp(b[1..][k], a[0])
    {
      NotBeforeTransitive(comp, b[1..][k], b[0], a[0]);
    }
    UnionNotBelow(a[1..], b[1..], a[0], comp);
    SortedCons(a[0], Union(a[1..], b[1..], comp), comp);
  }

  /** The intersection of two sorted ranges is sorted. */
  lemma {:induction false} IntersectionSorted<T(!new)>(a: seq<T>, b: seq<T>, comp: (T, T) -> bool)
    requires StrictWeakOrder(comp) && Sorted(a, comp) && Sorted(b, comp)
    ensures Sorted(Intersection(a, b, comp), comp)
    decreases |a| + |b|
  {
    if |a| > 0 && |b| > 0 {
      SortedTail(a, comp);
      SortedTail(b, comp);
      if comp(a[0], b[0]) {
        IntersectionSorted(a[1..], b, comp);
      } else if comp(b[0], a[0]) {
        IntersectionSorted(a, b[1..], comp);
      } else {
        IntersectionSorted(a[1..], b[1..], comp);
        IntersectionNotBelow(a[1..], b[1..], a[0], comp);
        SortedCons(a[0], Intersection(a[1..], b[1..], comp), comp);
      }
    }
  }

  /** The difference of two sorted ranges is sorted. */
  lemma {:induction false} DifferenceSorted<T(!new)>(a: seq<T>, b: seq<T>, comp: (T, T) -> bool)
    requires StrictWeakOrder(comp) && Sorted(a, comp) && Sorted(b, comp)
    ensures Sorted(Difference(a, b, comp), comp)
    decreases |a| + |b|
  {
    if |a| > 0 && |b| > 0 {
      SortedTail(a, comp);
      SortedTail(b, comp);
      if comp(a[0], b[0]) {
        DifferenceSorted(a[1..], b, comp);
        DifferenceNotBelow(a[1..], b, a[0], comp);
        SortedCons(a[0], Difference(a[1..], b, comp), comp);
      } else if comp(b[0], a[0]) {
        DifferenceSorted(a, b[1..], comp);
      } else {
        DifferenceSorted(a[1..], b[1..], comp);
      }
    }
  }

  /** The symmetric difference of two sorted ranges is sorted. */
  lemma {:induction false} SymmetricDifferenceSorted<T(!new)>(a: seq<T>, b: seq<T>, comp: (T, T) -> bool)
    requires StrictWeakOrder(comp) && Sorted(a, comp) && Sorted(b, comp)
    ensures Sorted(SymmetricDifference(a, b, comp), comp)
    decreases |a| + |b|
  {
    if |a| > 0 && |b| > 0 {
      SortedTail(a, comp);
      SortedTail(b, comp);
      if comp(a[0], b[0]) {
        SymmetricDifferenceSorted(a[1..], b, comp);
        Asymmetric(comp, a[0], b[0]);
        NotBelowHead(b, a[0], comp);
        SymmetricDifferenceNotBelow(a[1..], b, a[0], comp);
        SortedCons(a[0], SymmetricDifference(a[1..], b, comp), comp);
      } else if comp(b[0], a[0]) {
        SymmetricDifferenceSorted(a, b[1..], comp);
        Asymmetric(comp, b[0], a[0]);
        NotBelowHead(a, b[0], comp);
        SymmetricDifferenceNotBelow(a, b[1..], b[0], comp);
        SortedCons(b[0], SymmetricDifference(a, b[1..], comp), comp);
      } else {
        SymmetricDifferenceSorted(a[1..], b[1..], comp);
      }
    }
  }

  // ---------------------------------------------------------------------------------------
  // Multiset counts, for a comparator under which equivalent elements are equal

  /** An element ordered before the head of a sorted range does not occur in it. */
  lemma AbsentBelowHead<T(!new)>(s: seq<T>, x: T, comp: (T, T) -> bool)
    requires StrictWeakOrder(comp)
    requires |s| > 0 && Sorted(s, comp) && comp(x, s[0])
    ensures multiset(s)[x] == 0
  {
    forall k | 0 <= k < |s|
      ensures s[k] != x
    {
      if k > 0 {
        BeforeAbove(comp, x, s[k], s[0]);
      }
    }
  }

  lemma HeadSplit<T>(s: seq<T>, x: T)
    requires |s| > 0
    ensures multiset(s)[x] == (if s[0] == x then 1 else 0) + multiset(s[1..])[x]
  {
    assert s == [s[0]] + s[1..];
  }

  /** Each element occurs in the union as often as in the range holding more of it. */
  lemma {:induction false} UnionCount<T(!new)>(a: seq<T>, b: seq<T>, comp: (T, T) -> bool, x: T)
    requires StrictTotalOrder(comp) && Sorted(a, comp) && Sorted(b, comp)
    ensures multiset(Union(a, b, comp))[x] == Max(multiset(a)[x], multiset(b)[x])
    decreases |a| + |b|
  {
    if |a| > 0 && |b| > 0 {
      SortedTail(a, comp);
      SortedTail(b, comp);
      HeadSplit(a, x);
      HeadSplit(b, x);
      if comp(a[0], b[0]) {
        UnionCount(a[1..], b, comp, x);
        AbsentBelowHead(b, a[0], comp);
      } else if comp(b[0], a[0]) {
        UnionCount(a, b[1..], comp, x);
        AbsentBelowHead(a, b[0], comp);
      } else {
        UnionCount(a[1..], b[1..], comp, x);
      }
    }
  }

  /** Each element occurs in the intersection as often as in the range holding fewer of it. */
  lemma {:induction false} IntersectionCount<T(!new)>(a: seq<T>, b: seq<T>, comp: (T, T) -> bool, x: T)
    requires StrictTotalOrder(comp) && Sorted(a, comp) && Sorted(b, comp)
    ensures multiset(Intersection(a, b, comp))[x] == Min(multiset(a)[x], multiset(b)[x])
    decreases |a| + |b|
  {
    if |a| > 0 && |b| > 0 {
      SortedTail(a, comp);
      SortedTail(b, comp);
      HeadSplit(a, x);
      HeadSplit(b, x);
      if comp(a[0], b[0]) {
        IntersectionCount(a[1..], b, comp, x);
        AbsentBelowHead(b, a[0], comp);
      } else if comp(b[0], a[0]) {
        IntersectionCount(a, b[1..], comp, x);
        AbsentBelowHead(a, b[0], comp);
      } else {
        IntersectionCount(a[1..], b[1..], comp, x);
      }
    }
  }

  /** Each element occurs in the difference as often as it occurs more often in the first
      range than in the second, and never less than zero times. */
  lemma {:induction false} DifferenceCount<T(!new)>(a: seq<T>, b: seq<T>, comp: (T, T) -> bool, x: T)
    requires StrictTotalOrder(comp) && Sorted(a, comp) && Sorted(b, comp)
    ensures multiset(Difference(a, b, comp))[x] == Max(0, multiset(a)[x] as int - multiset(b)[x])
    decreases |a| + |b|
  {
    if |a| > 0 && |b| > 0 {
      SortedTail(a, comp);
      SortedTail(b, comp);
      HeadSplit(a, x);
      HeadSplit(b, x);
      if comp(a[0], b[0]) {
        DifferenceCount(a[1..], b, comp, x);
        AbsentBelowHead(b, a[0], comp);
      } else if comp(b[0], a[0]) {
        DifferenceCount(a, b[1..], comp, x);
        AbsentBelowHead(a, b[0], comp);
      } else {
        DifferenceCount(a[1..], b[1..], comp, x);
      }
    }
  }

  /** Each element occurs in the symmetric difference as often as the counts in the two
      ranges differ. */
  lemma {:induction false} SymmetricDifferenceCount<T(!new)>(a: seq<T>, b: seq<T>, comp: (T, T) -> bool, x: T)
    requires StrictTotalOrder(comp) && Sorted(a, comp) && Sorted(b, comp)
    ensures multiset(SymmetricDifference(a, b, comp))[x] == Functional.Abs(multiset(a)[x] as int - multiset(b)[x])
    decreases |a| + |b|
  {
    if |a| > 0 && |b| > 0 {
      SortedTail(a, comp);
      SortedTail(b, comp);
      HeadSplit(a, x);
      HeadSplit(b, x);
      if comp(a[0], b[0]) {
        SymmetricDifferenceCount(a[1..], b, comp, x);
        AbsentBelowHead(b, a[0], comp);
      } else if comp(b[0], a[0]) {
        SymmetricDifferenceCount(a, b[1..], comp, x);
        AbsentBelowHead(a, b[0], comp);
      } else {
        SymmetricDifferenceCount(a[1..], b[1..], comp, x);
      }
    }
  }

  /** The difference keeps the first range's elements in their order: it is a subsequence
      of `a`, obtained by dropping elements. */
  ghost predicate Subsequence<T>(r: seq<T>, a: seq<T>)
    decreases |a|
  {
    if |r| == 0 then true
    else if |a| == 0 then false
    else if r[0] == a[0] then Subsequence(r[1..], a[1..])
    else Subsequence(r, a[1..])
  }

  lemma {:induction false} SubsequenceOfSelf<T>(a: seq<T>)
    ensures Subsequence(a, a)
    decreases |a|
  {
    if |a| > 0 {
      SubsequenceOfSelf(a[1..]);
    }
  }

  lemma {:induction false} DifferenceSubsequence<T>(a: seq<T>, b: seq<T>, comp: (T, T) -> bool)
    ensures Subsequence(Difference(a, b, comp), a)
    ensures |b| == 0 ==> Difference(a, b, comp) == a
    decreases |a| + |b|
  {
    if |a| == 0 {
    } else if |b| == 0 {
      SubsequenceOfSelf(a);
    } else if comp(a[0], b[0]) {
      DifferenceSubsequence(a[1..], b, comp);
      assert ([a[0]] + Difference(a[1..], b, comp))[1..] == Difference(a[1..], b, comp);
    } else if comp(b[0], a[0]) {
      DifferenceSubsequence(a, b[1..], comp);
    } else {
      DifferenceSubsequence(a[1..], b[1..], comp);
      DropFirst(Difference(a[1..], b[1..], comp), a);
    }
  }

  /** A subsequence of the tail is a subsequence. */
  lemma {:induction false} DropFirst<T>(r: seq<T>, a: seq<T>)
    requires |a| > 0 && Subsequence(r, a[1..])
    ensures Subsequence(r, a)
    decreases |a|, 0
  {
    if |r| > 0 && r[0] == a[0] {
      SubsequenceDropHead(r, a[1..]);
    }
  }

  /** Dropping the head of `r` keeps it a subsequence. */
  lemma {:induction false} SubsequenceDropHead<T>(r: seq<T>, a: seq<T>)
    requires |r| > 0 && Subsequence(r, a)
    ensures Subsequence(r[1..], a)
    decreases |a|, 1
  {
    if |a| > 0 && r[0] != a[0] {
      SubsequenceDropHead(r, a[1..]);
      DropFirst(r[1..], a);
    } else if |a| > 0 {
      DropFirst(r[1..], a);
    }
  }

  /** With an empty range, set_union copies the other range. */
  lemma UnionWithEmpty<T>(a: seq<T>, comp: (T, T) -> bool)
    ensures Union([], a, comp) == a && Union(a, [], comp) == a
    ensures UnionAsWritten([], a, comp) == a && UnionAsWritten(a, [], comp) == a
  {
  }

  /** With an empty second range, set_difference copies the first range. */
  lemma DifferenceWithEmpty<T>(a: seq<T>, comp: (T, T) -> bool)
    ensures Difference(a, [], comp) == a
  {
  }

  /** A range of integers sorted by `<` is one in non-decreasing order. */
  ghost predicate NonDecreasing(s: seq<int>) {
    forall i, j :: 0 <= i < j < |s| ==> s[i] <= s[j]
  }

  /** The `<` overloads on non-decreasing ranges of integers: each output is non-decreasing,
      and a value occurring `c1` times in `a` and `c2` times in `b` occurs max(c1, c2),
      min(c1, c2), max(0, c1 - c2) and |c1 - c2| times in the four outputs. */
  lemma SetAlgorithmsOnInts(a: seq<int>, b: seq<int>, x: int)
    requires NonDecreasing(a) && NonDecreasing(b)
    ensures NonDecreasing(Union(a, b, Functional.Less))
    ensures NonDecreasing(Intersection(a, b, Functional.Less))
    ensures NonDecreasing(Difference(a, b, Functional.Less))
    ensures NonDecreasing(SymmetricDifference(a, b, Functional.Less))
    ensures multiset(Union(a, b, Functional.Less))[x] == Max(multiset(a)[x], multiset(b)[x])
    ensures multiset(Intersection(a, b, Functional.Less))[x] == Min(multiset(a)[x], multiset(b)[x])
    ensures multiset(Difference(a, b, Functional.Less))[x] == Max(0, multiset(a)[x] as int - multiset(b)[x])
    ensures multiset(SymmetricDifference(a, b, Functional.Less))[x]
            == Functional.Abs(multiset(a)[x] as int - multiset(b)[x])
  {
    var lt := Functional.Less;
    Functional.LessIsStrictTotalOrder();
    assert Sorted(a, lt) && Sorted(b, lt);
    UnionSorted(a, b, lt);
    IntersectionSorted(a, b, lt);
    DifferenceSorted(a, b, lt);
    SymmetricDifferenceSorted(a, b, lt);
    UnionCount(a, b, lt, x);
    IntersectionCount(a, b, lt, x);
    DifferenceCount(a, b, lt, x);
    SymmetricDifferenceCount(a, b, lt, x);
  }

  // ---------------------------------------------------------------------------------------
  // The algorithms, writing through an output index

  /** ccystl::copy of `src` to `out[k..]`: returns the index after the last element
      written. */
  method CopyTo<T>(src: seq<T>, out: array<T>, k: nat) returns (end: nat)
    requires k + |src| <= out.Length
    modifies out
    ensures end == k + |src|
    ensures out[..] == old(out[..k]) + src + old(out[end..])
  {
    var i := 0;
    while i < |src|
      invariant 0 <= i <= |src|
      invariant out[..] == old(out[..k]) + src[..i] + old(out[k + i..])
    {
      out[k + i] := src[i];
      i := i + 1;
      assert src[..i] == src[..i - 1] + [src[i - 1]];
    }
    end := k + |src|;
    assert src[..i] == src;
  }

  /** The end of a loop whose output so far is `w`, written after `front` over the
      original contents `back`: the remaining `tail` is copied after `w`. */
  method CopyRest<T>(tail: seq<T>, out: array<T>, k: nat, ghost front: seq<T>, ghost w: seq<T>, ghost back: seq<T>)
    returns (end: nat)
    requires |front| + |w| == k && |back| == out.Length && k + |tail| <= out.Length
    requires out[..] == front + w + back[k..]
    modifies out
    ensures end == k + |tail|
    ensures out[..] == front + (w + tail) + back[end..]
  {
    end := CopyTo(tail, out, k);
    assert out[..] == front + w + tail + back[end..];
  }

  /** Writing `v` at the output index `k` extends the written part `w` by `v`. */
  method Emit<T>(out: array<T>, k: nat, v: T, ghost front: seq<T>, ghost w: seq<T>, ghost back: seq<T>)
    requires |front| + |w| == k < out.Length == |back|
    requires out[..] == front + w + back[k..]
    modifies out
    ensures out[..] == front + (w + [v]) + back[k + 1..]
  {
    out[k] := v;
  }

  /** One step of the loop below: at the cursors `i` and `j`, the loop outputs `v` and
      moves the cursors to `i'` and `j'`. */
  lemma UnionAsWrittenAdvance<T>(a: seq<T>, b: seq<T>, i: nat, j: nat, comp: (T, T) -> bool,
                                 w: seq<T>, total: seq<T>, v: T, i': nat, j': nat)
    requires i < |a| && j < |b| && w + UnionAsWritten(a[i..], b[j..], comp) == total
    requires (v, i', j') == if comp(a[i], b[j]) then (a[i], i + 1, j)
                           else if comp(b[j], a[i]) then (b[j], i + 1, j)
                           else (a[i], i + 1, j + 1)
    ensures i' <= |a| && j' <= |b| && |w| < |total|
    ensures (w + [v]) + UnionAsWritten(a[i'..], b[j'..], comp) == total
  {
    assert a[i..][0] == a[i] && a[i..][1..] == a[i + 1..];
    assert b[j..][0] == b[j] && b[j..][1..] == b[j + 1..];
    assert UnionAsWritten(a[i..], b[j..], comp) == [v] + UnionAsWritten(a[i'..], b[j'..], comp);
  }

  /** The merging loop of set_union as written: it stops when either range is used up, having written
      `w` to `out[result..k]`. */
  method UnionAsWrittenLoop<T>(a: seq<T>, b: seq<T>, out: array<T>, result: nat, comp: (T, T) -> bool)
    returns (i: nat, j: nat, k: nat, ghost w: seq<T>)
    requires result + |UnionAsWritten(a, b, comp)| <= out.Length
    modifies out
    ensures i <= |a| && j <= |b| && k == result + |w|
    ensures w + (a[i..] + b[j..]) == UnionAsWritten(a, b, comp)
    ensures out[..] == old(out[..result]) + w + old(out[k..])
  {
    i, j, k := 0, 0, result;
    w := [];
    ghost var front, back := out[..result], out[..];
    while i < |a| && j < |b|
      invariant i <= |a| && j <= |b| && k == result + |w|
      invariant w + UnionAsWritten(a[i..], b[j..], comp) == UnionAsWritten(a, b, comp)
      invariant out[..] == front + w + back[k..]
      decreases |a| - i + |b| - j
    {
      var v, i', j';
      if comp(a[i], b[j]) {
        v, i', j' := a[i], i + 1, j;
      } else if comp(b[j], a[i]) {
        v, i', j' := b[j], i + 1, j;
      } else {
        v, i', j' := a[i], i + 1, j + 1;
      }
      UnionAsWrittenAdvance(a, b, i, j, comp, w, UnionAsWritten(a, b, comp), v, i', j');
      Emit(out, k, v, front, w, back);
      w, k, i, j := w + [v], k + 1, i', j';
    }
    assert UnionAsWritten(a[i..], b[j..], comp) == a[i..] + b[j..];
    assert back[k..] == old(out[k..]);
  }

  /** set_union as written, over `a` and `b`, to `out[result..]`. */
  method SetUnionAsWritten<T>(a: seq<T>, b: seq<T>, out: array<T>, result: nat, comp: (T, T) -> bool)
    returns (end: nat)
    requires result + |UnionAsWritten(a, b, comp)| <= out.Length
    modifies out
    ensures end == result + |UnionAsWritten(a, b, comp)|
    ensures out[..] == old(out[..result]) + UnionAsWritten(a, b, comp) + old(out[end..])
  {
    ghost var front, back := out[..result], out[..];
    var i, j, k;
    ghost var w;
    i, j, k, w := UnionAsWrittenLoop(a, b, out, result, comp);
    end := CopyRest(a[i..] + b[j..], out, k, front, w, back);
    assert back[end..] == old(out[end..]);
  }

  /** One step of the loop below: at the cursors `i` and `j`, the loop outputs `v` and
      moves the cursors to `i'` and `j'`. */
  lemma UnionAdvance<T>(a: seq<T>, b: seq<T>, i: nat, j: nat, comp: (T, T) -> bool,
                        w: seq<T>, total: seq<T>, v: T, i': nat, j': nat)
    requires i < |a| && j < |b| && w + Union(a[i..], b[j..], comp) == total
    requires (v, i', j') == if comp(a[i], b[j]) then (a[i], i + 1, j)
                           else if comp(b[j], a[i]) then (b[j], i, j + 1)
                           else (a[i], i + 1, j + 1)
    ensures i' <= |a| && j' <= |b| && |w| < |total|
    ensures (w + [v]) + Union(a[i'..], b[j'..], comp) == total
  {
    assert a[i..][0] == a[i] && a[i..][1..] == a[i + 1..];
    assert b[j..][0] == b[j] && b[j..][1..] == b[j + 1..];
    assert Union(a[i..], b[j..], comp) == [v] + Union(a[i'..], b[j'..], comp);
  }

  /** The merging loop of set_union: it stops when either range is used up, having written
      `w` to `out[result..k]`. */
  method UnionLoop<T>(a: seq<T>, b: seq<T>, out: array<T>, result: nat, comp: (T, T) -> bool)
    returns (i: nat, j: nat, k: nat, ghost w: seq<T>)
    requires result + |Union(a, b, comp)| <= out.Length
    modifies out
    ensures i <= |a| && j <= |b| && k == result + |w|
    ensures w + (a[i..] + b[j..]) == Union(a, b, comp)
    ensures out[..] == old(out[..result]) + w + old(out[k..])
  {
    i, j, k := 0, 0, result;
    w := [];
    ghost var front, back := out[..result], out[..];
    while i < |a| && j < |b|
      invariant i <= |a| && j <= |b| && k == result + |w|
      invariant w + Union(a[i..], b[j..], comp) == Union(a, b, comp)
      invariant out[..] == front + w + back[k..]
      decreases |a| - i + |b| - j
    {
      var v, i', j';
      if comp(a[i], b[j]) {
        v, i', j' := a[i], i + 1, j;
      } else if comp(b[j], a[i]) {
        v, i', j' := b[j], i, j + 1;
      } else {
        v, i', j' := a[i], i + 1, j + 1;
      }
      UnionAdvance(a, b, i, j, comp, w, Union(a, b, comp), v, i', j');
      Emit(out, k, v, front, w, back);
      w, k, i, j := w + [v], k + 1, i', j';
    }
    assert Union(a[i..], b[j..], comp) == a[i..] + b[j..];
    assert back[k..] == old(out[k..]);
  }

  /** set_union, as it is meant to be, over `a` and `b`, to `out[result..]`. */
  method SetUnion<T>(a: seq<T>, b: seq<T>, out: array<T>, result: nat, comp: (T, T) -> bool)
    returns (end: nat)
    requires result + |Union(a, b, comp)| <= out.Length
    modifies out
    ensures end == result + |Union(a, b, comp)|
    ensures out[..] == old(out[..result]) + Union(a, b, comp) + old(out[end..])
  {
    ghost var front, back := out[..result], out[..];
    var i, j, k;
    ghost var w;
    i, j, k, w := UnionLoop(a, b, out, result, comp);
    end := CopyRest(a[i..] + b[j..], out, k, front, w, back);
    assert back[end..] == old(out[end..]);
  }

  /** set_intersection over `a` and `b`, to `out[result..]`. */
  method SetIntersection<T>(a: seq<T>, b: seq<T>, out: array<T>, result: nat, comp: (T, T) -> bool)
    returns (end: nat)
    requires result + |Intersection(a, b, comp)| <= out.Length
    modifies out
    ensures end == result + |Intersection(a, b, comp)|
    ensures out[..] == old(out[..result]) + Intersection(a, b, comp) + old(out[end..])
  {
    var i, j, k := 0, 0, result;
    ghost var w: seq<T> := [];
    ghost var front, back := out[..result], out[..];
    while i < |a| && j < |b|
      invariant i <= |a| && j <= |b| && k == result + |w|
      invariant w + Intersection(a[i..], b[j..], comp) == Intersection(a, b, comp)
      invariant out[..] == front + w + back[k..]
      decreases |a| - i + |b| - j
    {
      assert a[i..][0] == a[i] && a[i..][1..] == a[i + 1..];
      assert b[j..][0] == b[j] && b[j..][1..] == b[j + 1..];
      if comp(a[i], b[j]) {
        i := i + 1;
      } else if comp(b[j], a[i]) {
        j := j + 1;
      } else {
        Emit(out, k, a[i], front, w, back);
        w, k := w + [a[i]], k + 1;
        i, j := i + 1, j + 1;
      }
    }
    assert Intersection(a[i..], b[j..], comp) == [];
    end := k;
    assert w == Intersection(a, b, comp);
    assert back[k..] == old(out[end..]);
  }

  /** set_difference over `a` and `b`, to `out[result..]`. */
  method SetDifference<T>(a: seq<T>, b: seq<T>, out: array<T>, result: nat, comp: (T, T) -> bool)
    returns (end: nat)
    requires result + |Difference(a, b, comp)| <= out.Length
    modifies out
    ensures end == result + |Difference(a, b, comp)|
    ensures out[..] == old(out[..result]) + Difference(a, b, comp) + old(out[end..])
  {
    var i, j, k := 0, 0, result;
    ghost var w: seq<T> := [];
    ghost var front, back := out[..result], out[..];
    while i < |a| && j < |b|
      invariant i <= |a| && j <= |b| && k == result + |w|
      invariant w + Difference(a[i..], b[j..], comp) == Difference(a, b, comp)
      invariant out[..] == front + w + back[k..]
      decreases |a| - i + |b| - j
    {
      assert a[i..][0] == a[i] && a[i..][1..] == a[i + 1..];
      assert b[j..][0] == b[j] && b[j..][1..] == b[j + 1..];
      if comp(a[i], b[j]) {
        Emit(out, k, a[i], front, w, back);
        w, k := w + [a[i]], k + 1;
        i := i + 1;
      } else if comp(b[j], a[i]) {
        j := j + 1;
      } else {
        i, j := i + 1, j + 1;
      }
    }
    assert Difference(a[i..], b[j..], comp) == a[i..];
    assert w + a[i..] == Difference(a, b, comp);
    assert k + |a[i..]| == result + |Difference(a, b, comp)|;
    end := CopyRest(a[i..], out, k, front, w, back);
    assert back[end..] == old(out[end..]);
  }

  /** One step of the loop below, at the cursors `i` and `j`. */
  lemma SymmetricDifferenceStep<T>(a: seq<T>, b: seq<T>, i: nat, j: nat, comp: (T, T) -> bool)
    requires i < |a| && j < |b|
    ensures comp(a[i], b[j]) ==> SymmetricDifference(a[i..], b[j..], comp) == [a[i]] + SymmetricDifference(a[i + 1..], b[j..], comp)
    ensures !comp(a[i], b[j]) && comp(b[j], a[i]) ==> SymmetricDifference(a[i..], b[j..], comp) == [b[j]] + SymmetricDifference(a[i..], b[j + 1..], comp)
    ensures !comp(a[i], b[j]) && !comp(b[j], a[i]) ==> SymmetricDifference(a[i..], b[j..], comp) == SymmetricDifference(a[i + 1..], b[j + 1..], comp)
  {
    assert a[i..][0] == a[i] && a[i..][1..] == a[i + 1..];
    assert b[j..][0] == b[j] && b[j..][1..] == b[j + 1..];
  }

  /** The merging loop of set_symmetric_difference: it stops when either range is used up, having written
      `w` to `out[result..k]`. */
  method SymmetricDifferenceLoop<T>(a: seq<T>, b: seq<T>, out: array<T>, result: nat, comp: (T, T) -> bool)
    returns (i: nat, j: nat, k: nat, ghost w: seq<T>)
    requires result + |SymmetricDifference(a, b, comp)| <= out.Length
    modifies out
    ensures i <= |a| && j <= |b| && k == result + |w|
    ensures w + (a[i..] + b[j..]) == SymmetricDifference(a, b, comp)
    ensures out[..] == old(out[..result]) + w + old(out[k..])
  {
    i, j, k := 0, 0, result;
    w := [];
    ghost var front, back := out[..result], out[..];
    while i < |a| && j < |b|
      invariant i <= |a| && j <= |b| && k == result + |w|
      invariant w + SymmetricDifference(a[i..], b[j..], comp) == SymmetricDifference(a, b, comp)
      invariant out[..] == front + w + back[k..]
      decreases |a| - i + |b| - j
    {
      SymmetricDifferenceStep(a, b, i, j, comp);
      ghost var rest := SymmetricDifference(a[i..], b[j..], comp);
      if comp(a[i], b[j]) {
        assert (w + [a[i]]) + SymmetricDifference(a[i + 1..], b[j..], comp) == w + rest;
        Emit(out, k, a[i], front, w, back);
        w, k := w + [a[i]], k + 1;
        i := i + 1;
      } else if comp(b[j], a[i]) {
        assert (w + [b[j]]) + SymmetricDifference(a[i..], b[j + 1..], comp) == w + rest;
        Emit(out, k, b[j], front, w, back);
        w, k := w + [b[j]], k + 1;
        j := j + 1;
      } else {
        i, j := i + 1, j + 1;
      }
    }
    assert SymmetricDifference(a[i..], b[j..], comp) == a[i..] + b[j..];
    assert back[k..] == old(out[k..]);
  }

  /** set_symmetric_difference over `a` and `b`, to `out[result..]`. */
  method SetSymmetricDifference<T>(a: seq<T>, b: seq<T>, out: array<T>, result: nat, comp: (T, T) -> bool)
    returns (end: nat)
    requires result + |SymmetricDifference(a, b, comp)| <= out.Length
    modifies out
    ensures end == result + |SymmetricDifference(a, b, comp)|
    ensures out[..] == old(out[..result]) + SymmetricDifference(a, b, comp) + old(out[end..])
  {
    ghost var front, back := out[..result], out[..];
    var i, j, k;
    ghost var w;
    i, j, k, w := SymmetricDifferenceLoop(a, b, out, result, comp);
    end := CopyRest(a[i..] + b[j..], out, k, front, w, back);
    assert back[end..] == old(out[end..]);
  }
}
