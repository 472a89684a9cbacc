/**
  The numeric algorithms of ccystl/algorithm/numeric.h: accumulate, adjacent_difference,
  inner_product, iota and partial_sum.

  An input range is a sequence (it is only read); an output range is the part of an array
  `out` that starts at the index `result`, and the returned iterator is an index of `out`.
  The overloads without an operation work on integers; the overloads with an operation are
  generic in the element type.
 */
module Numeric {
  import Functional

  // ---------------------------------------------------------------------------------------
  // Reference definitions

  /** The left fold `op(...op(op(init, s[0]), s[1])..., s[|s| - 1])`. */
  function FoldLeft<T, U>(op: (U, T) -> U, init: U, s: seq<T>): (r: U)
    decreases |s|
  {
    if s == [] then init else op(FoldLeft(op, init, s[..|s| - 1]), s[|s| - 1])
  }

  /** The sum of the elements, counted from the front. */
  function Sum(s: seq<int>): (r: int)
    decreases |s|
  {
    if s == [] then 0 else s[0] + Sum(s[1..])
  }

  /** The sum of the products `a[i] * b[i]` for the indices of `a`. */
  function Dot(a: seq<int>, b: seq<int>): (r: int)
    requires |a| <= |b|
    decreases |a|
  {
    if a == [] then 0 else a[0] * b[0] + Dot(a[1..], b[1..])
  }

  /** The values `op2(a[i], b[i])` for the indices of `a`. */
  function Products<T, U, W>(a: seq<T>, b: seq<U>, op2: (T, U) -> W): (r: seq<W>)
    requires |a| <= |b|
  {
    seq(|a|, i requires 0 <= i < |a| => op2(a[i], b[i]))
  }

  /** The first element, then `op(a[i], a[i - 1])` for each later position: the current
      element comes first. */
  function Differences<T>(a: seq<T>, op: (T, T) -> T): (r: seq<T>)
  {
    seq(|a|, i requires 0 <= i < |a| => if i == 0 then a[0] else op(a[i], a[i - 1]))
  }

  /** Position `i` holds the left fold of `a[1..i + 1]` from `a[0]`. */
  function PartialFolds<T>(a: seq<T>, op: (T, T) -> T): (r: seq<T>)
  {
    seq(|a|, i requires 0 <= i < |a| => FoldLeft(op, a[0], a[1..i + 1]))
  }

  /** `value, value + 1, ..., value + n - 1`. */
  function IotaSeq(value: int, n: nat): (r: seq<int>)
  {
    seq(n, i => value + i)
  }

  // ---------------------------------------------------------------------------------------
  // accumulate

  /** accumulate(first, last, init): `init` plus the sum of the elements. */
  method Accumulate(a: seq<int>, init: int) returns (r: int)
    ensures r == init + Sum(a)
  {
    r := init;
    var i := 0;
    while i != |a|
      invariant i <= |a|
      invariant r + Sum(a[i..]) == init + Sum(a)
      decreases |a| - i
    {
      assert a[i..][1..] == a[i + 1..];
      r := r + a[i];
      i := i + 1;
    }
  }

  /** accumulate(first, last, init, binary_op): the left fold of the elements from `init`. */
  method AccumulateWith<T, U>(a: seq<T>, init: U, op: (U, T) -> U) returns (r: U)
    ensures r == FoldLeft(op, init, a)
  {
    r := init;
    var i := 0;
    while i != |a|
      invariant i <= |a|
      invariant r == FoldLeft(op, init, a[..i])
      decreases |a| - i
    {
      assert a[..i + 1][..i] == a[..i];
      r := op(r, a[i]);
      i := i + 1;
    }
    assert a[..i] == a;
  }

  /** Appending one element adds it to the sum. */
  lemma {:induction false} SumAppend(s: seq<int>, x: int)
    ensures Sum(s + [x]) == Sum(s) + x
    decreases |s|
  {
    if s != [] {
      assert (s + [x])[1..] == s[1..] + [x];
      SumAppend(s[1..], x);
    }
  }

  /** Folding with `plus` is the `<` overload: `init` plus the sum. */
  lemma {:induction false} FoldPlusIsSum(init: int, s: seq<int>)
    ensures FoldLeft(Functional.Plus, init, s) == init + Sum(s)
    decreases |s|
  {
    if s != [] {
      var n := |s| - 1;
      FoldPlusIsSum(init, s[..n]);
      assert s == s[..n] + [s[n]];
      SumAppend(s[..n], s[n]);
    }
  }

  /** Folding a concatenation folds the second part from the fold of the first. */
  lemma {:induction false} FoldLeftAppend<T, U>(op: (U, T) -> U, init: U, s: seq<T>, t: seq<T>)
    ensures FoldLeft(op, init, s + t) == FoldLeft(op, FoldLeft(op, init, s), t)
    decreases |t|
  {
    if t == [] {
      assert s + t == s;
    } else {
      var n := |t| - 1;
      assert (s + t)[..|s + t| - 1] == s + t[..n] && (s + t)[|s + t| - 1] == t[n];
      FoldLeftAppend(op, init, s, t[..n]);
    }
  }

  // ---------------------------------------------------------------------------------------
  // inner_product

  /** inner_product(first1, last1, first2, init): `init` plus the sum of the products; the
      second range must be at least as long as the first. */
  method InnerProduct(a: seq<int>, b: seq<int>, init: int) returns (r: int)
    requires |a| <= |b|
    ensures r == init + Dot(a, b)
  {
    r := init;
    var i := 0;
    while i != |a|
      invariant i <= |a|
      invariant r + Dot(a[i..], b[i..]) == init + Dot(a, b)
      decreases |a| - i
    {
      assert a[i..][1..] == a[i + 1..] && b[i..][1..] == b[i + 1..];
      r := r + a[i] * b[i];
      i := i + 1;
    }
  }

  /** inner_product(first1, last1, first2, init, binary_op1, binary_op2): the left fold by
      `op1` of the values `op2(a[i], b[i])`. */
  method InnerProductWith<T, U, V, W>(a: seq<T>, b: seq<U>, init: V, op1: (V, W) -> V, op2: (T, U) -> W)
    returns (r: V)
    requires |a| <= |b|
    ensures r == FoldLeft(op1, init, Products(a, b, op2))
  {
    r := init;
    var i := 0;
    while i != |a|
      invariant i <= |a|
      invariant r == FoldLeft(op1, init, Products(a[..i], b, op2))
      decreases |a| - i
    {
      assert Products(a[..i + 1], b, op2)[..i] == Products(a[..i], b, op2);
      r := op1(r, op2(a[i], b[i]));
      i := i + 1;
    }
    assert a[..i] == a;
  }

  /** The generic inner product with `plus` and `multiplies` is the integer one. */
  lemma {:induction false} InnerProductOfInts(a: seq<int>, b: seq<int>, init: int)
    requires |a| <= |b|
    ensures FoldLeft(Functional.Plus, init, Products(a, b, Functional.Multiplies)) == init + Dot(a, b)
  {
    FoldPlusIsSum(init, Products(a, b, Functional.Multiplies));
    SumOfProducts(a, b);
  }

  lemma {:induction false} SumOfProducts(a: seq<int>, b: seq<int>)
    requires |a| <= |b|
    ensures Sum(Products(a, b, Functional.Multiplies)) == Dot(a, b)
    decreases |a|
  {
    if a != [] {
      assert Products(a, b, Functional.Multiplies)[1..] == Products(a[1..], b[1..], Functional.Multiplies);
      SumOfProducts(a[1..], b[1..]);
    }
  }

  // ---------------------------------------------------------------------------------------
  // adjacent_difference

  /** adjacent_difference(first, last, result, binary_op): writes `Differences(a, op)` from
      `result` and returns its end; nothing else in `out` changes.  An empty input writes
      nothing and returns `result`. */
  method AdjacentDifferenceWith<T>(a: seq<T>, out: array<T>, result: nat, op: (T, T) -> T) returns (end: nat)
    requires result + |a| <= out.Length
    modifies out
    ensures end == result + |a|
    ensures forall k :: 0 <= k < result || end <= k < out.Length ==> out[k] == old(out[k])
    ensures forall k :: result <= k < end ==> out[k] == Differences(a, op)[k - result]
  {
    if |a| == 0 {
      return result;
    }
    ghost var d := Differences(a, op);
    out[result] := a[0];
    var value := a[0];
    var i := 1;
    while i != |a|
      invariant 1 <= i <= |a| && value == a[i - 1]
      invariant forall k :: 0 <= k < result ==> out[k] == old(out[k])
      invariant forall k :: result + i <= k < out.Length ==> out[k] == old(out[k])
      invariant forall k :: 0 <= k < i ==> out[result + k] == d[k]
      decreases |a| - i
    {
      var tmp := a[i];
      out[result + i] := op(tmp, value);
      value := tmp;
      i := i + 1;
    }
    end := result + i;
  }

  /** adjacent_difference(first, last, result): the first element, then each element minus
      the one before it. */
  method AdjacentDifference(a: seq<int>, out: array<int>, result: nat) returns (end: nat)
    requires result + |a| <= out.Length
    modifies out
    ensures end == result + |a|
    ensures forall k :: 0 <= k < result || end <= k < out.Length ==> out[k] == old(out[k])
    ensures |a| > 0 ==> out[result] == a[0]
    ensures forall i :: 0 < i < |a| ==> out[result + i] == a[i] - a[i - 1]
  {
    end := AdjacentDifferenceWith(a, out, result, Functional.Minus);
    forall i | 0 <= i < |a|
      ensures out[result + i] == Differences(a, Functional.Minus)[i]
    {
      assert result <= result + i < end;
    }
  }

  // ---------------------------------------------------------------------------------------
  // partial_sum

  /** partial_sum(first, last, result, binary_op): writes `PartialFolds(a, op)` from
      `result` and returns its end; nothing else in `out` changes.  An empty input writes
      nothing and returns `result`. */
  method PartialSumWith<T>(a: seq<T>, out: array<T>, result: nat, op: (T, T) -> T) returns (end: nat)
    requires result + |a| <= out.Length
    modifies out
    ensures end == result + |a|
    ensures forall k :: 0 <= k < result || end <= k < out.Length ==> out[k] == old(out[k])
    ensures forall k :: result <= k < end ==> out[k] == PartialFolds(a, op)[k - result]
  {
    if |a| == 0 {
      return result;
    }
    ghost var p := PartialFolds(a, op);
    out[result] := a[0];
    var value := a[0];
    var i := 1;
    while i != |a|
      invariant 1 <= i <= |a| && value == p[i - 1]
      invariant forall k :: 0 <= k < result ==> out[k] == old(out[k])
      invariant forall k :: result + i <= k < out.Length ==> out[k] == old(out[k])
      invariant forall k :: 0 <= k < i ==> out[result + k] == p[k]
      decreases |a| - i
    {
      assert a[1..i + 1][..i - 1] == a[1..i];
      value := op(value, a[i]);
      out[result + i] := value;
      i := i + 1;
    }
    end := result + i;
  }

  /** partial_sum(first, last, result): position `i` of the output is the sum of the first
      `i + 1` elements. */
  method PartialSum(a: seq<int>, out: array<int>, result: nat) returns (end: nat)
    requires result + |a| <= out.Length
    modifies out
    ensures end == result + |a|
    ensures forall k :: 0 <= k < result || end <= k < out.Length ==> out[k] == old(out[k])
    ensures forall k :: result <= k < end ==> out[k] == Sum(a[..k - result + 1])
  {
    end := PartialSumWith(a, out, result, Functional.Plus);
    PartialSumsAreSums(a);
  }

  /** Each partial fold with `plus` is the sum of a prefix. */
  lemma PartialSumsAreSums(a: seq<int>)
    ensures forall i :: 0 <= i < |a| ==> PartialFolds(a, Functional.Plus)[i] == Sum(a[..i + 1])
  {
    forall i | 0 <= i < |a|
      ensures PartialFolds(a, Functional.Plus)[i] == Sum(a[..i + 1])
    {
      FoldPlusIsSum(a[0], a[1..i + 1]);
      assert a[..i + 1][1..] == a[1..i + 1];
    }
  }

  /** Each partial fold is the previous one combined with the next element. */
  lemma PartialFoldsStep<T>(a: seq<T>, op: (T, T) -> T, i: nat)
    requires 0 < i < |a|
    ensures PartialFolds(a, op)[i] == op(PartialFolds(a, op)[i - 1], a[i])
  {
    assert a[1..i + 1][..i - 1] == a[1..i];
  }

  /** Taking adjacent differences undoes partial sums. */
  lemma DifferencesOfPartialSums(a: seq<int>)
    ensures Differences(PartialFolds(a, Functional.Plus), Functional.Minus) == a
  {
    var p := PartialFolds(a, Functional.Plus);
    if |a| > 0 {
      PartialFoldsFirst(a, Functional.Plus);
    }
    forall j | 0 < j < |a|
      ensures p[j] == p[j - 1] + a[j]
    {
      PartialFoldsStep(a, Functional.Plus, j);
    }
    DifferencesOfRunningSums(a, p);
  }

  /** A sequence that starts at `a[0]` and adds `a[j]` at each step has `a` as its adjacent
      differences. */
  lemma DifferencesOfRunningSums(a: seq<int>, p: seq<int>)
    requires |p| == |a| && (|a| > 0 ==> p[0] == a[0])
    requires forall j :: 0 < j < |a| ==> p[j] == p[j - 1] + a[j]
    ensures Differences(p, Functional.Minus) == a
  {
  }

  /** The first partial fold is the first element. */
  lemma PartialFoldsFirst<T>(a: seq<T>, op: (T, T) -> T)
    requires |a| > 0
    ensures PartialFolds(a, op)[0] == a[0]
  {
    assert a[1..1] == [];
  }

  /** Partial sums undo adjacent differences. */
  lemma PartialSumsOfDifferences(a: seq<int>)
    ensures PartialFolds(Differences(a, Functional.Minus), Functional.Plus) == a
  {
    var d := Differences(a, Functional.Minus);
    forall i | 0 <= i < |a|
      ensures PartialFolds(d, Functional.Plus)[i] == a[i]
    {
      PartialSumOfDifferencesAt(a, i);
    }
  }

  lemma {:induction false} PartialSumOfDifferencesAt(a: seq<int>, i: nat)
    requires i < |a|
    ensures PartialFolds(Differences(a, Functional.Minus), Functional.Plus)[i] == a[i]
  {
    if i > 0 {
      PartialSumOfDifferencesAt(a, i - 1);
      PartialFoldsStep(Differences(a, Functional.Minus), Functional.Plus, i);
    }
  }

  // ---------------------------------------------------------------------------------------
  // iota

  /** iota(first, last, value): `a[first + k] := value + k` for the positions of
      `[first, last)`; nothing else changes. */
  method Iota(a: array<int>, first: nat, last: nat, value: int)
    requires first <= last <= a.Length
    modifies a
    ensures a[first..last] == IotaSeq(value, last - first)
    ensures forall k :: 0 <= k < a.Length && !(first <= k < last) ==> a[k] == old(a[k])
  {
    var i, v := first, value;
    while i != last
      invariant first <= i <= last && v == value + (i - first)
      invariant forall k :: first <= k < i ==> a[k] == value + (k - first)
      invariant forall k :: 0 <= k < a.Length && !(first <= k < i) ==> a[k] == old(a[k])
      decreases last - i
    {
      a[i] := v;
      i, v := i + 1, v + 1;
    }
  }

  /** The values iota writes start at `value` and step by one. */
  lemma IotaSteps(value: int, n: nat)
    ensures n > 0 ==> Differences(IotaSeq(value, n), Functional.Minus) == [value] + seq(n - 1, _ => 1)
  {
  }
}
