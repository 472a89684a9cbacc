# ccystl algorithm layer in Dafny

This project models ccystl's self-contained algorithm layer, a small C++ template library
in the style of the STL, and proves properties of the model. The parts modelled are:

- the binary-heap algorithms (`push_heap`, `adjust_heap`, `pop_heap`, `sort_heap`,
  `make_heap`);
- the `priority_queue` adapter built on them;
- the four sorted-range set algorithms;
- `lower_bound`;
- the numeric algorithms;
- iterator `distance` and `advance`, and `reverse_iterator`;
- the function objects and the FNV-1a `bitwise_hash`;
- `swap`, `swap_range` and `pair`, both the ccystl copy and the older yccstl copy.

The map and unordered-multimap front ends forward to a red-black tree and a hash table.
ccystl/internal/rb_tree.h and ccystl/internal/hash_table.h are not part of this model.

How the C++ is represented:

- **Comparators.** Every algorithm taking a comparator is modelled with `comp: (T, T) -> bool`,
  read as "ordered before". The properties assume `comp` is a strict weak order
  (`Order.StrictWeakOrder`).
- **The `<` overloads.** Each one is the comparator overload with `comp == Functional.Less`.
  The `...OfInts` lemmas state what that gives on integers. set_union's `<` overload is the
  one exception in its text: its second test is `*first1 > *first2` (set_algo.h:25), which
  uses `operator>` rather than `<` with the operands swapped. On `int` the two are the same
  (`Functional.ComparisonsFromLess`), so it is modelled as the comparator overload with
  `Functional.Less`.
- **Read-only input ranges** are sequences.
- **In-place ranges** are prefixes of an `array`.
- **Output iterators** are an index `result` into an output array. The iterator an algorithm
  returns is an index too.
- **How each method is proved.** A method is proved equal to a specification function that
  takes the same steps as the source's loop. Each property is then a lemma about that
  function.
- **Classes.** `priority_queue`, `pair` and `reverse_iterator` are classes whose fields are
  updated in place.

File layout:

| file | module | models |
|---|---|---|
| order.dfy | Order | strict weak orders, sortedness |
| heap.dfy, heap_algo.dfy | Heap, HeapAlgo | ccystl/algorithm/heap_algo.h |
| priority_queue.dfy | PriorityQueues | ccystl/adapter/priority_queue.h |
| set_algo.dfy | SetAlgo | ccystl/algorithm/set_algo.h |
| range_algo.dfy | RangeAlgo | `lower_bound` in ccystl/algorithm/range_algo.h |
| numeric.dfy | Numeric | ccystl/algorithm/numeric.h |
| iterator.dfy | Iterators | `distance`, `advance` and `reverse_iterator` in ccystl/iterator/iterator.h |
| functional.dfy | Functional | ccystl/functor/functional.h |
| utils.dfy | Utils | `swap`, `swap_range` and `pair` in ccystl/utils/utils.h |
| yutils.dfy | YUtils | the same in yccstl/utils/utils.h |

## Model

| member | source | states |
|---|---|---|
| Heap.Parent | ccystl/algorithm/heap_algo.h:32-32 | the parent index `(i - 1) / 2` lies strictly before every non-root node; the root's parent is the root, as C++ truncation gives |
| HeapAlgo.PushHeapAux | ccystl/algorithm/heap_algo.h:86-98 | push_heap_aux moves `value` up from `holeIndex` towards `topIndex` in place; the array afterwards is the specification `PushUp` of the old array |
| HeapAlgo.PushUpFrame | ccystl/algorithm/heap_algo.h:86-98 | push_heap_aux leaves the elements of the range with `value` in place of the hole's old content; nothing after `holeIndex` changes, and nothing before `topIndex` when the hole lies below `topIndex` |
| HeapAlgo.PushUpPath | ccystl/algorithm/heap_algo.h:86-98 | push_heap_aux writes only `holeIndex` and its ancestors: every other position keeps its value |
| HeapAlgo.PushUpHeap | ccystl/algorithm/heap_algo.h:86-98 | when `value` is pushed into a hole of the subtree of `topIndex`, which is a heap apart from the hole and into which `value` fits from below, that subtree becomes a heap within `[0, len)` |
| HeapAlgo.PushUpInSubtree | ccystl/algorithm/heap_algo.h:86-98 | push_heap_aux started inside the subtree of `topIndex` writes nothing outside that subtree |
| HeapAlgo.AdjustHeap | ccystl/algorithm/heap_algo.h:214-232 | adjust_heap in place: the array afterwards is `AdjustHeapSpec` of the old array |
| HeapAlgo.AdjustHeapCorrect | ccystl/algorithm/heap_algo.h:214-232 | if both child subtrees of `holeIndex` are heaps within `len` (whatever the rest of the range holds), the subtree at `holeIndex` becomes a heap; the range is a permutation of the input with `value` in the hole; no position outside the subtree of `holeIndex` changes, nor any at or after `len` |
| HeapAlgo.AdjustHeapSuffix | ccystl/algorithm/heap_algo.h:214-232 | as make_heap and pop_heap use it: if every edge below `holeIndex` is ordered, every edge from `holeIndex` on is afterwards, with the same permutation and frame facts |
| HeapAlgo.SiftDownInSubtree | ccystl/algorithm/heap_algo.h:217-225 | the downward pass of adjust_heap writes nothing outside the subtree it starts in |
| HeapAlgo.SiftDownFrame | ccystl/algorithm/heap_algo.h:217-225 | the downward pass of adjust_heap changes nothing before `holeIndex` and nothing at or after `len` |
| HeapAlgo.SiftDownLeaf | ccystl/algorithm/heap_algo.h:217-225 | the downward pass stops at or below `holeIndex`, at a node with no child in `[0, len)`, inside `[0, len)` unless it never moved |
| HeapAlgo.PushHeap | ccystl/algorithm/heap_algo.h:112-131 | push_heap on a range whose first `last - 1` elements are a heap leaves `[0, last)` a heap and a permutation of the input, with nothing after `last` changed |
| HeapAlgo.PushHeapCorrect | ccystl/algorithm/heap_algo.h:112-131 | the same three facts about the specification `PushHeapSpec` |
| HeapAlgo.PopHeap | ccystl/algorithm/heap_algo.h:248-269 | pop_heap on a non-empty heap moves the old top to `last - 1`; `[0, last - 1)` is a heap, the whole range is a permutation of the input, and nothing after `last` changes |
| HeapAlgo.PopHeapCorrect | ccystl/algorithm/heap_algo.h:248-269 | the same facts about the specification `PopHeapSpec` |
| HeapAlgo.PopHeapAux | ccystl/algorithm/heap_algo.h:248-254 | pop_heap_aux stores the top at `last - 1` and then adjusts from the root with the old last element; the result is `PopHeapSpec` |
| HeapAlgo.SortHeap | ccystl/algorithm/heap_algo.h:297-302 | sort_heap on a heap leaves `[0, last)` sorted by `comp` and a permutation of its input |
| HeapAlgo.SortHeapCorrect | ccystl/algorithm/heap_algo.h:297-302 | the same facts about the specification `SortHeapSpec` |
| HeapAlgo.MakeHeap | ccystl/algorithm/heap_algo.h:354-378 | make_heap turns any range into a heap that is a permutation of the input |
| HeapAlgo.MakeHeapCorrect | ccystl/algorithm/heap_algo.h:354-378 | make_heap's result is a heap and a permutation; ranges shorter than 2 are left untouched |
| Heap.HeapTopAll | ccystl/algorithm/heap_algo.h:354-378 | under a strict weak order, no element of a heap is ordered after the first one, so `comp(first[0], x)` is false for every `x` in the heap |
| HeapAlgo.HeapOfInts | ccystl/algorithm/heap_algo.h:29-69 | for the `<` overloads, a heap is a max-heap: no child exceeds its parent |
| HeapAlgo.HeapSortOfInts | ccystl/algorithm/heap_algo.h:281-339 | make_heap followed by sort_heap with `<` leaves any integer range non-decreasing and holding the same elements |
| PriorityQueues.BuildHeap | ccystl/adapter/priority_queue.h:69-121 | a constructor's fresh buffer holds the input rearranged by make_heap |
| PriorityQueues.BuiltHeap | ccystl/adapter/priority_queue.h:69-121 | what make_heap leaves in the constructor's buffer is a heap of exactly the input's elements |
| PriorityQueues.PriorityQueue.Empty | ccystl/adapter/priority_queue.h:55-62 | the default and comparator constructors give an empty valid queue |
| PriorityQueues.PriorityQueue.FromSeq | ccystl/adapter/priority_queue.h:69-121 | the filling constructors give a valid heap holding the input's elements |
| PriorityQueues.PriorityQueue.Copy | ccystl/adapter/priority_queue.h:128-140 | the copy and move constructors copy `c_` and `comp_` and rebuild the heap; contents are a permutation of `rhs`'s |
| PriorityQueues.PriorityQueue.Assign | ccystl/adapter/priority_queue.h:148-170 | copy and move assignment copy `c_` and `comp_` and rebuild the heap |
| PriorityQueues.PriorityQueue.AssignSeq | ccystl/adapter/priority_queue.h:174-179 | initializer-list assignment gives a valid heap of exactly the list's elements |
| PriorityQueues.PriorityQueue.Top | ccystl/adapter/priority_queue.h:193-193 | `top()` is an element of the queue that is not ordered before any element of the queue |
| PriorityQueues.PriorityQueue.IsEmpty | ccystl/adapter/priority_queue.h:202-202 | `empty()` holds exactly when the queue has no elements |
| PriorityQueues.PriorityQueue.Size | ccystl/adapter/priority_queue.h:209-209 | `size()` is the number of elements held, counted with multiplicity |
| PriorityQueues.PriorityQueue.Grow | ccystl/adapter/priority_queue.h:234-238 | a full vector reallocates into a larger buffer before `push_back`; its elements, length and comparator stay the same |
| PriorityQueues.PriorityQueue.Push | ccystl/adapter/priority_queue.h:221-249 | `push` and `emplace` raise the size by one, add the value to the multiset of elements and keep the heap invariant |
| PriorityQueues.PriorityQueue.PushWithin | ccystl/adapter/priority_queue.h:234-238 | push_back into spare capacity followed by push_heap keeps the invariant and adds exactly the value |
| PriorityQueues.PriorityQueue.Pop | ccystl/adapter/priority_queue.h:254-257 | `pop` on a non-empty queue removes exactly one occurrence of the old top, lowers the size by one and keeps the heap invariant |
| PriorityQueues.PriorityQueue.Clear | ccystl/adapter/priority_queue.h:262-264 | `clear` leaves the queue empty and valid, with the same comparator |
| PriorityQueues.PriorityQueue.Swap | ccystl/adapter/priority_queue.h:271-276 | `swap` exchanges both the containers and the comparators of the two queues |
| PriorityQueues.Equal | ccystl/adapter/priority_queue.h:287-290 | the friend `==` holds exactly when the two vectors have the same length and are equal position by position |
| PriorityQueues.NotEqual | ccystl/adapter/priority_queue.h:298-300 | the friend `!=` holds exactly when the lengths differ or some position differs |
| PriorityQueues.SwapQueues | ccystl/adapter/priority_queue.h:348-353 | the free swap exchanges contents and comparators |
| SetAlgo.UnionAsWritten | ccystl/algorithm/set_algo.h:15-61 | set_union as written, on sequences: the branch where the second range's element is ordered first outputs it but drops the first range's head; UnionAsWrittenLosesElements and UnionAsWrittenAgrees state how it relates to Union |
| SetAlgo.SetUnionAsWritten | ccystl/algorithm/set_algo.h:39-61 | set_union as written writes exactly `UnionAsWritten(a, b)` from `result`, returns the index after it and changes nothing else in `out` |
| SetAlgo.UnionAsWrittenLosesElements | ccystl/algorithm/set_algo.h:49-51 | with S1 = [2] and S2 = [1], the code as written yields [1, 1]: it loses 2 and duplicates 1, while the union is [1, 2] |
| SetAlgo.UnionAsWrittenAgrees | ccystl/algorithm/set_algo.h:39-61 | the code as written agrees with the union when no element of `b` is ordered before an element of `a`, so the faulty branch is never taken |
| SetAlgo.SetUnion | ccystl/algorithm/set_algo.h:39-61 | the corrected set_union writes exactly `Union(a, b)` from `result`, returns `result` plus its length and writes nothing else |
| SetAlgo.Union | ccystl/algorithm/set_algo.h:39-61 | the union is no longer than the two inputs together |
| SetAlgo.UnionSorted | ccystl/algorithm/set_algo.h:39-61 | the union of two sorted ranges is sorted |
| SetAlgo.UnionCount | ccystl/algorithm/set_algo.h:39-61 | with a total order, a value occurring `c1` and `c2` times in the inputs occurs max(c1, c2) times in the union |
| SetAlgo.UnionWithEmpty | ccystl/algorithm/set_algo.h:60-60 | with an empty range, both the corrected union and the code as written copy the other range |
| SetAlgo.SetIntersection | ccystl/algorithm/set_algo.h:88-108 | set_intersection writes exactly `Intersection(a, b)` from `result`, returns its end and writes nothing else |
| SetAlgo.Intersection | ccystl/algorithm/set_algo.h:88-108 | the intersection is no longer than either input, so at most min(\|S1\|, \|S2\|) |
| SetAlgo.IntersectionSorted | ccystl/algorithm/set_algo.h:88-108 | the intersection of sorted ranges is sorted |
| SetAlgo.IntersectionCount | ccystl/algorithm/set_algo.h:88-108 | each value occurs min(c1, c2) times in the intersection |
| SetAlgo.SetDifference | ccystl/algorithm/set_algo.h:136-156 | set_difference writes exactly `Difference(a, b)` from `result`, returns its end and writes nothing else |
| SetAlgo.Difference | ccystl/algorithm/set_algo.h:136-156 | the difference is no longer than the first range |
| SetAlgo.DifferenceWithEmpty | ccystl/algorithm/set_algo.h:155-155 | with an empty second range, the difference is a copy of the first |
| SetAlgo.DifferenceSorted | ccystl/algorithm/set_algo.h:136-156 | the difference of sorted ranges is sorted |
| SetAlgo.DifferenceCount | ccystl/algorithm/set_algo.h:136-156 | each value occurs max(0, c1 - c2) times in the difference |
| SetAlgo.DifferenceSubsequence | ccystl/algorithm/set_algo.h:136-156 | the difference is a subsequence of the first range |
| SetAlgo.SetSymmetricDifference | ccystl/algorithm/set_algo.h:186-208 | set_symmetric_difference writes exactly `SymmetricDifference(a, b)` from `result`, returns its end and writes nothing else |
| SetAlgo.SymmetricDifference | ccystl/algorithm/set_algo.h:186-208 | the symmetric difference is no longer than the two inputs together |
| SetAlgo.SymmetricDifferenceSorted | ccystl/algorithm/set_algo.h:186-208 | the symmetric difference of sorted ranges is sorted |
| SetAlgo.SymmetricDifferenceCount | ccystl/algorithm/set_algo.h:186-208 | each value occurs \|c1 - c2\| times in the symmetric difference |
| SetAlgo.SetAlgorithmsOnInts | ccystl/algorithm/set_algo.h:66-184 | the `<` overloads on non-decreasing integer ranges yield non-decreasing outputs with the counts max, min, max(0, c1 - c2) and \|c1 - c2\| |
| SetAlgo.UnionLoop | ccystl/algorithm/set_algo.h:44-59 | the merge loop stops with both cursors inside their ranges; the elements it wrote, followed by the two remaining tails, are the union, and only the cells it wrote changed |
| RangeAlgo.LowerBoundFrom | ccystl/algorithm/range_algo.h:24-37 | the result always lies in `[first, last]` |
| RangeAlgo.LowerBound | ccystl/algorithm/range_algo.h:24-37 | lower_bound returns an index in `[0, |s|]`, only reading the range; on a range partitioned by `comp(_, value)` every element before it is ordered before `value` and none from it on is |
| RangeAlgo.LowerBoundCorrect | ccystl/algorithm/range_algo.h:24-37 | the same split for the specification `LowerBoundFrom` |
| RangeAlgo.AllBeforeGivesLast | ccystl/algorithm/range_algo.h:28-35 | when every element is ordered before `value`, the search returns `last` |
| RangeAlgo.NoneBeforeGivesFirst | ccystl/algorithm/range_algo.h:28-35 | when no element is ordered before `value`, the search returns `first` |
| RangeAlgo.SortedPartitioned | ccystl/algorithm/range_algo.h:24-37 | a range sorted by a strict weak order is partitioned by every value, so lower_bound's split applies to it |
| RangeAlgo.LowerBoundOfInts | ccystl/algorithm/range_algo.h:9-21 | the `<` overload on a non-decreasing integer range: every element before the result is `< value` and none from it on is |
| Numeric.Accumulate | ccystl/algorithm/numeric.h:25-31 | accumulate returns `init` plus the sum of the elements |
| Numeric.AccumulateWith | ccystl/algorithm/numeric.h:48-54 | accumulate with `binary_op` returns the left fold `op(...op(init, a0)..., an-1)` |
| Numeric.FoldPlusIsSum | ccystl/algorithm/numeric.h:25-54 | the left fold with `plus` is `init` plus the sum: the two overloads agree |
| Numeric.FoldLeftAppend | ccystl/algorithm/numeric.h:48-54 | folding a concatenation folds the second part starting from the fold of the first |
| Numeric.SumAppend | ccystl/algorithm/numeric.h:25-31 | appending an element adds it to the sum |
| Numeric.InnerProduct | ccystl/algorithm/numeric.h:129-136 | inner_product returns `init + Σ a[i] * b[i]` over the length of the first range |
| Numeric.InnerProductWith | ccystl/algorithm/numeric.h:157-165 | the custom inner_product is the left fold by `op1` of `op2(a[i], b[i])` from `init` |
| Numeric.InnerProductOfInts | ccystl/algorithm/numeric.h:129-165 | the custom form with `plus` and `multiplies` gives `init + Σ a[i] * b[i]`: the two overloads agree |
| Numeric.SumOfProducts | ccystl/algorithm/numeric.h:129-136 | the sum of the pairwise products is the dot product |
| Numeric.AdjacentDifferenceWith | ccystl/algorithm/numeric.h:99-112 | writes `a[0]`, then `op(a[i], a[i - 1])` with the current element first, at `out[result..]`; returns `result + n`, and no position outside the output range changes (an empty input writes nothing) |
| Numeric.AdjacentDifference | ccystl/algorithm/numeric.h:69-82 | `out[result] = a[0]` and `out[result + i] = a[i] - a[i - 1]`; returns `result + n`, and nothing outside the output range changes |
| Numeric.PartialSumWith | ccystl/algorithm/numeric.h:226-236 | writes the prefix left folds of the input at `out[result..]` and returns `result + n`; no position outside the output range changes (an empty input is a no-op) |
| Numeric.PartialSum | ccystl/algorithm/numeric.h:199-210 | `out[result + i] = a[0] + ... + a[i]`; returns `result + n`, and nothing outside the output range changes |
| Numeric.PartialSumsAreSums | ccystl/algorithm/numeric.h:199-210 | each prefix fold with `plus` is the sum of that prefix |
| Numeric.PartialFoldsStep | ccystl/algorithm/numeric.h:231-234 | each prefix fold is `op` of the previous one and the next element, as the loop computes it |
| Numeric.DifferencesOfPartialSums | ccystl/algorithm/numeric.h:69-210 | round trip: adjacent_difference of partial_sum gives the input back |
| Numeric.DifferencesOfRunningSums | ccystl/algorithm/numeric.h:69-82 | any sequence that starts at `a[0]` and adds `a[j]` at each step has `a` as its adjacent differences |
| Numeric.PartialFoldsFirst | ccystl/algorithm/numeric.h:226-230 | the first prefix fold is the first element, as partial_sum writes it |
| Numeric.PartialSumsOfDifferences | ccystl/algorithm/numeric.h:69-210 | round trip: partial_sum of adjacent_difference gives the input back |
| Numeric.PartialSumOfDifferencesAt | ccystl/algorithm/numeric.h:69-210 | position by position, the partial sums of the differences are the original elements |
| Numeric.Iota | ccystl/algorithm/numeric.h:178-184 | iota sets `a[first + k] = value + k` for exactly the positions of `[first, last)` and changes no other position |
| Numeric.IotaSteps | ccystl/algorithm/numeric.h:178-184 | the values iota writes start at `value` and step by one |
| Iterators.DistanceStepping | ccystl/iterator/iterator.h:158-167 | the stepping distance counts the increments needed to reach `last`, which equals `last - first` as the random-access version returns |
| Iterators.Distance | ccystl/iterator/iterator.h:176-180 | distance, dispatched on the category, returns `last - first` for every category |
| Iterators.AdvanceInput | ccystl/iterator/iterator.h:185-188 | the input version moves forward `n >= 0` steps, landing where the random-access version lands |
| Iterators.AdvanceBidirectional | ccystl/iterator/iterator.h:191-198 | the bidirectional version moves forward `n` steps, or back `-n` steps when `n < 0`, landing at `i + n` |
| Iterators.Advance | ccystl/iterator/iterator.h:206-209 | advance, dispatched on the category, moves `i` by `n`; the input version requires `n >= 0` |
| Iterators.AdvanceDistanceRoundTrip | ccystl/iterator/iterator.h:170-204 | advancing by the distance reaches `last`, and the distance to `advance(i, n)` is `n` |
| Iterators.ReverseIterator.constructor | ccystl/iterator/iterator.h:231-231 | the explicit constructor wraps the given iterator |
| Iterators.ReverseIterator.Copy | ccystl/iterator/iterator.h:232-232 | the copy constructor copies `current` |
| Iterators.ReverseIterator.Increment | ccystl/iterator/iterator.h:247-250 | prefix `++` decrements `current` |
| Iterators.ReverseIterator.PostIncrement | ccystl/iterator/iterator.h:252-256 | postfix `++` decrements `current` and returns a copy of the old iterator |
| Iterators.ReverseIterator.Decrement | ccystl/iterator/iterator.h:259-262 | prefix `--` increments `current` |
| Iterators.ReverseIterator.PostDecrement | ccystl/iterator/iterator.h:264-268 | postfix `--` increments `current` and returns a copy of the old iterator |
| Iterators.ReverseIterator.AddAssign | ccystl/iterator/iterator.h:270-273 | `+= n` moves the base back by `n` |
| Iterators.ReverseIterator.SubAssign | ccystl/iterator/iterator.h:277-280 | `-= n` moves the base forward by `n` |
| Iterators.ReverseIterator.Plus | ccystl/iterator/iterator.h:275-275 | `+ n` gives `base() - n`, which lies `n` further on as measured by `operator-` and is after this iterator exactly when `n > 0` |
| Iterators.ReverseIterator.Minus | ccystl/iterator/iterator.h:282-282 | `- n` gives `base() + n` |
| Iterators.ReverseIterator.Index | ccystl/iterator/iterator.h:284-284 | `operator[](n)`, which is `*(*this + n)`, yields the element at `base() - n - 1`; for `n == 0` it is what `operator*` yields, the element at `base() - 1` |
| Iterators.ReverseIterator.Base | ccystl/iterator/iterator.h:235-235 | `base()`: the wrapped position `current` |
| Iterators.ReverseIterator.Deref | ccystl/iterator/iterator.h:238-242 | `operator*`: the element just before the wrapped position, `s[current - 1]`; Index states that `(*this)[0]` agrees with it |
| Iterators.Difference | ccystl/iterator/iterator.h:288-293 | `operator-(lhs, rhs)`: `rhs.base() - lhs.base()`; ComparisonsFollowDifference relates the comparisons to it |
| Iterators.Equal | ccystl/iterator/iterator.h:296-300 | `operator==`: the bases are equal |
| Iterators.Less | ccystl/iterator/iterator.h:302-306 | `operator<`: `rhs.base() < lhs.base()`, the order of the bases reversed; ComparisonsAreTotalOrder states its order laws |
| Iterators.NotEqual | ccystl/iterator/iterator.h:308-312 | `operator!=`: `!(lhs == rhs)` |
| Iterators.Greater | ccystl/iterator/iterator.h:314-318 | `operator>`: `rhs < lhs` |
| Iterators.LessEqual | ccystl/iterator/iterator.h:320-324 | `operator<=`: `!(rhs < lhs)` |
| Iterators.GreaterEqual | ccystl/iterator/iterator.h:326-330 | `operator>=`: `!(lhs < rhs)` |
| Iterators.ComparisonsFollowDifference | ccystl/iterator/iterator.h:288-306 | `lhs - rhs` equals `rhs.base() - lhs.base()`; `<` holds exactly when it is negative, `==` exactly when it is zero |
| Iterators.ComparisonsAreTotalOrder | ccystl/iterator/iterator.h:302-330 | `<` is a strict total order, and `>`, `<=` and `>=` derived from it are consistent with it |
| Functional.Plus | ccystl/functor/functional.h:47-50 | `plus<int>`: `x + y` on unbounded integers; its unit is stated by IdentityElementsAreUnits |
| Functional.Minus | ccystl/functor/functional.h:59-62 | `minus<int>`: `x - y`; NegateLaws relates it to plus and negate |
| Functional.Multiplies | ccystl/functor/functional.h:71-74 | `multiplies<int>`: `x * y`; its unit is stated by IdentityElementsAreUnits |
| Functional.Divides | ccystl/functor/functional.h:83-86 | `divides<int>`: C++ `/`, the quotient of the magnitudes with the sign that the operand signs give, i.e. rounded toward zero; the divisor must not be zero; DivisionLaws states its meaning |
| Functional.Modulus | ccystl/functor/functional.h:95-98 | `modulus<int>`: C++ `%`, the remainder of the magnitudes with the dividend's sign; the divisor must not be zero; DivisionLaws states its meaning |
| Functional.Negate | ccystl/functor/functional.h:107-110 | `negate<int>`: `-x`; NegateLaws states that it is an involution and the inverse for plus |
| Functional.EqualTo | ccystl/functor/functional.h:119-122 | `equal_to<int>`: `x == y` |
| Functional.NotEqualTo | ccystl/functor/functional.h:131-134 | `not_equal_to<int>`: `x != y`; ComparisonsFromLess ties it to `less` |
| Functional.Greater | ccystl/functor/functional.h:143-146 | `greater<int>`: `x > y`; GreaterIsStrictTotalOrder states it is a strict total order |
| Functional.Less | ccystl/functor/functional.h:155-158 | `less<int>`: `x < y`; LessIsStrictTotalOrder states it is a strict total order |
| Functional.GreaterEqual | ccystl/functor/functional.h:167-170 | `greater_equal<int>`: `x >= y`; ComparisonsFromLess ties it to `less` |
| Functional.LessEqual | ccystl/functor/functional.h:179-182 | `less_equal<int>`: `x <= y`; ComparisonsFromLess ties it to `less` |
| Functional.LogicalAnd | ccystl/functor/functional.h:191-194 | `logical_and<bool>`: `x && y`; LogicalLaws relates the three logical functors |
| Functional.LogicalOr | ccystl/functor/functional.h:203-206 | `logical_or<bool>`: `x \|\| y` |
| Functional.LogicalNot | ccystl/functor/functional.h:215-218 | `logical_not<bool>`: `!x` |
| Functional.IdentityPlus | ccystl/functor/functional.h:227-230 | `identity_element(plus<int>)`: 0; IdentityElementsAreUnits and IdentityElementsAreUnique state that it is the unit of plus |
| Functional.IdentityMultiplies | ccystl/functor/functional.h:239-242 | `identity_element(multiplies<int>)`: 1; the same two lemmas state that it is the unit of multiplies |
| Functional.Identity | ccystl/functor/functional.h:251-254 | `identity<T>`: returns its argument |
| Functional.SelectFirst | ccystl/functor/functional.h:261-266 | `selectfirst<pair>`: the pair's `first`; SelectIsProject and SelectMadePair state it |
| Functional.SelectSecond | ccystl/functor/functional.h:273-278 | `selectsecond<pair>`: the pair's `second` |
| Functional.ProjectFirst | ccystl/functor/functional.h:286-289 | `projectfirst<Arg1, Arg2>`: its first argument |
| Functional.ProjectSecond | ccystl/functor/functional.h:297-300 | `projectsecond<Arg1, Arg2>`: its second argument |
| Functional.DivisionLaws | ccystl/functor/functional.h:83-98 | `divides` and `modulus` on integers follow C++: quotient times divisor plus remainder is the dividend, the remainder is smaller than the divisor in magnitude and has the dividend's sign |
| Functional.NegateLaws | ccystl/functor/functional.h:59-110 | `negate` is an involution, `x + (-x) == 0`, `x - x` is the identity of `plus`, and dividing by -1 negates |
| Functional.LessIsStrictTotalOrder | ccystl/functor/functional.h:155-158 | `less<int>` is a strict total order, so the `<` overloads meet the algorithms' requirement |
| Functional.GreaterIsStrictTotalOrder | ccystl/functor/functional.h:143-146 | `greater<int>` is a strict total order too |
| Functional.ComparisonsFromLess | ccystl/functor/functional.h:119-182 | `greater(x, y) == less(y, x)`, `less_equal(x, y) == !less(y, x)`, `greater_equal(x, y) == !less(x, y)`, and `equal_to` is equivalence under `less` |
| Functional.LogicalLaws | ccystl/functor/functional.h:191-218 | `logical_and`, `logical_or` and `logical_not` obey De Morgan's laws, and `logical_not` is an involution |
| Functional.IdentityElementsAreUnits | ccystl/functor/functional.h:227-242 | `identity_element(plus)` is 0 and `identity_element(multiplies)` is 1; each is a left and right unit for its functor |
| Functional.IdentityElementsAreUnique | ccystl/functor/functional.h:227-242 | each is the only left unit of its functor |
| Functional.SelectIsProject | ccystl/functor/functional.h:251-300 | `selectfirst` and `selectsecond` return the pair's components, which are what `projectfirst` and `projectsecond` return for those components and what `identity` returns for them |
| Functional.SelectMadePair | ccystl/functor/functional.h:261-278 | selecting the components of a pair made from `x` and `y` gives back `x` and `y` |
| Functional.IntegerHash | ccystl/functor/functional.h:327-333 | the integer `hash` is the value cast to a 64-bit `size_t`, always below 2^64 |
| Functional.IntegerHashValues | ccystl/functor/functional.h:327-333 | the hash is the identity on non-negative values, and adds 2^64 to negative ones |
| Functional.IntegerHashInjective | ccystl/functor/functional.h:327-333 | two values of the same 64-bit integer type, signed or unsigned, have the same hash exactly when they are equal |
| Functional.BoolHash | ccystl/functor/functional.h:335-335 | `hash<bool>` is 1 for `true` and 0 for `false` |
| Functional.Fnv64From | ccystl/functor/functional.h:384-389 | the loop from a given start returns the start unchanged when there are no bytes |
| Functional.Fnv1a64 | ccystl/functor/functional.h:376-390 | zero-length input returns the 64-bit offset basis 14695981039346656037 |
| Functional.Fnv64FromAppend | ccystl/functor/functional.h:385-388 | hashing one more byte is one more xor-then-multiply step on the hash so far |
| Functional.Fnv64StepLaw | ccystl/functor/functional.h:385-388 | `hash(bytes ++ [b]) == (hash(bytes) xor b) * prime mod 2^64` |
| Functional.Fnv64TestVectors | ccystl/functor/functional.h:378-379 | with the 64-bit constants, "", "a" and "foobar" hash to the published FNV-1a values |
| Functional.BitwiseHash64 | ccystl/functor/functional.h:376-390 | bitwise_hash with a 64-bit `size_t` computes FNV-1a |
| Functional.Fnv32From | ccystl/functor/functional.h:384-389 | the 32-bit loop from a given start: no bytes leave the start unchanged |
| Functional.Fnv1a32 | ccystl/functor/functional.h:381-382 | zero-length input returns the 32-bit offset basis 2166136261 |
| Functional.Fnv32FromAppend | ccystl/functor/functional.h:385-388 | the 32-bit step law |
| Functional.Fnv32TestVectors | ccystl/functor/functional.h:381-382 | with the 32-bit constants, "", "a" and "foobar" hash to the published FNV-1a values |
| Functional.BitwiseHash32 | ccystl/functor/functional.h:376-390 | bitwise_hash with a 32-bit `size_t` computes 32-bit FNV-1a |
| Utils.Swap | ccystl/utils/utils.h:104-109 | `swap` exchanges the two cells, which may be the same cell, and changes nothing else |
| Utils.Exchange | ccystl/utils/utils.h:123-130 | the exchange of two ranges: position `first1 + k` of the first buffer gets `y[first2 + k]` and the reverse, for every `k < n`; all other positions keep their values |
| Utils.ExchangeTwice | ccystl/utils/utils.h:123-130 | applying the exchange twice restores both buffers |
| Utils.SwapRange | ccystl/utils/utils.h:123-130 | swap_range exchanges `a[first1 + k]` and `b[first2 + k]` for every `k < last1 - first1`, returns `first2 + n` and leaves every other position unchanged |
| Utils.SwapArrays | ccystl/utils/utils.h:142-145 | the array `swap` exchanges the whole contents of two arrays of the same length, cell by cell; `swap(a, a)` is allowed and leaves the array unchanged |
| Utils.Pair.constructor | ccystl/utils/utils.h:189-189 | `pair(a, b)` stores `a` and `b` |
| Utils.Pair.Copy | ccystl/utils/utils.h:208-208 | the copy constructor copies both components |
| Utils.Pair.Assign | ccystl/utils/utils.h:325-331 | copy assignment leaves both components equal to `rhs`'s, so `*this == rhs`, including self-assignment |
| Utils.Pair.Swap | ccystl/utils/utils.h:354-359 | `pair::swap` as intended: the two pairs exchange both components |
| Utils.MakePair | ccystl/utils/utils.h:471-474 | for rvalue arguments, where `Ty1` and `Ty2` are deduced as value types, make_pair gives a new pair holding both values unchanged (the lvalue case, a pair of references, is under Left out) |
| Utils.SwapPairs | ccystl/utils/utils.h:457-460 | the free swap exchanges both components of the two pairs |
| Utils.Equal | ccystl/utils/utils.h:371-374 | pair `operator==`: both components equal; EqualityLaws states that it is an equivalence |
| Utils.NotEqual | ccystl/utils/utils.h:402-405 | pair `operator!=`: the negation of `==` |
| Utils.Less | ccystl/utils/utils.h:387-391 | pair `operator<`: the first components' `<` decides, and on equal first components the second components' `<`; LessIsStrictTotal states its order laws |
| Utils.Greater | ccystl/utils/utils.h:416-419 | pair `operator>`: `rhs < lhs`; DerivedOperators relates it to `<` |
| Utils.LessEqual | ccystl/utils/utils.h:430-433 | pair `operator<=`: `!(rhs < lhs)` |
| Utils.GreaterEqual | ccystl/utils/utils.h:444-447 | pair `operator>=`: `!(lhs < rhs)` |
| Utils.EqualityLaws | ccystl/utils/utils.h:371-405 | `==` compares componentwise and is an equivalence; `!=` is its negation |
| Utils.LessIsStrictTotal | ccystl/utils/utils.h:387-391 | with totally ordered components, the lexicographic `<` is irreflexive, transitive, asymmetric and total up to `==` |
| Utils.DerivedOperators | ccystl/utils/utils.h:416-447 | `>` swaps the operands, `<=` is `<` or `==`, `>=` is `>` or `==`, and `<=` both ways means `==` |
| YUtils.Swap | yccstl/utils/utils.h:37-42 | `swap` exchanges the two cells and changes nothing else |
| YUtils.SwapRange | yccstl/utils/utils.h:44-50 | swap_range exchanges corresponding elements, returns `first2 + n` and leaves every other position unchanged |
| YUtils.SwapArrays | yccstl/utils/utils.h:52-55 | the array `swap` exchanges two arrays' contents cell by cell; the same array on both sides is allowed and left unchanged |
| YUtils.Pair.constructor | yccstl/utils/utils.h:85-85 | `pair(a, b)` stores `a` and `b` |
| YUtils.Pair.Copy | yccstl/utils/utils.h:99-99 | the copy constructor copies both components |
| YUtils.Pair.Assign | yccstl/utils/utils.h:172-178 | copy assignment leaves `*this == rhs` |
| YUtils.Pair.Swap | yccstl/utils/utils.h:190-195 | `pair::swap` as intended: both components are exchanged |
| YUtils.MakePair | yccstl/utils/utils.h:233-236 | for rvalue arguments make_pair gives a new pair holding both values unchanged (the lvalue case, a pair of references, is under Left out) |
| YUtils.SwapPairs | yccstl/utils/utils.h:228-231 | the free swap exchanges both components |
| YUtils.Equal | yccstl/utils/utils.h:198-201 | pair `operator==`: both components equal; EqualityLaws states that it is an equivalence |
| YUtils.NotEqual | yccstl/utils/utils.h:208-211 | pair `operator!=`: the negation of `==` |
| YUtils.Less | yccstl/utils/utils.h:203-206 | pair `operator<`: lexicographic, the first components' `<` first; LessIsStrictTotal states its order laws |
| YUtils.Greater | yccstl/utils/utils.h:213-216 | pair `operator>`: `rhs < lhs` |
| YUtils.LessEqual | yccstl/utils/utils.h:218-221 | pair `operator<=`: `!(rhs < lhs)` |
| YUtils.GreaterEqual | yccstl/utils/utils.h:223-226 | pair `operator>=`: `!(lhs < rhs)` |
| YUtils.EqualityLaws | yccstl/utils/utils.h:198-211 | `==` is componentwise and an equivalence; `!=` is its negation |
| YUtils.LessIsStrictTotal | yccstl/utils/utils.h:203-206 | the lexicographic `<` is a strict total order when the components are |
| YUtils.DerivedOperators | yccstl/utils/utils.h:213-226 | `>`, `<=` and `>=` are derived from `<` and consistent with it |

## Left out

- The red-black tree, the hash table and the containers on them (map, unordered_multimap):
  ccystl/internal/rb_tree.h and ccystl/internal/hash_table.h are not part of this model.
- stack and queue: they delegate to `ccystl::deque`, which is not part of this model.
- The allocators, construct/destroy, the uninitialized algorithms and `memory.h`: raw
  memory, placement construction and exception rollback, which are object lifetime rather
  than behaviour.
- `move` and `forward`: type casts with no run-time behaviour.
- The type traits and iterator-category machinery: compile-time only. The category is the
  parameter `cat` of `Iterators.Distance` and `Iterators.Advance`.
- The float, double, long double and pointer `hash` specialisations: floating point and
  address reinterpretation.
- priority_queue's free `operator==` and `operator!=` (priority_queue.h:315-335): they take
  non-const references, so for two non-const queues `a == b` picks them over the friend
  operators (whose `const&` parameters need a qualification conversion), and their body
  `lhs == rhs` picks them again, so they never return. Only when an operand is const does
  the call reach the friend operator (priority_queue.h:287-300), which is what
  PriorityQueues.Equal and PriorityQueues.NotEqual model.
- The vector growth policy: `Grow` doubles the buffer plus one. ccystl's vector is not part
  of this model.
- PriorityQueues.PriorityQueue.AssignSeq: the source resets the comparator with
  `comp_ = value_compare()` (priority_queue.h:176). The model has no default-constructed
  comparator and takes it as the parameter `comp`, so a caller may pass any comparator,
  including the old one; this differs from the source for a `Compare` that holds state.
- Default constructors: yccstl's `pair()` (yccstl/utils/utils.h:71-76) and
  `priority_queue(size_type n)` value-initialise their elements. This model has no notion of
  a default value, so it uses whatever value the caller supplies (`FromSeq` takes the
  elements explicitly).
- ccystl's `pair()` (ccystl/utils/utils.h:169-173) cannot be called at all. Its third
  template parameter is a non-type parameter of type `std::enable_if_t<..., void>` with no
  default argument. It cannot be deduced, and `void` is not a valid type for a non-type
  parameter, so `ccystl::pair<A, B>()` is never viable. The model has no default
  constructor for Utils.Pair.
- Utils.MakePair: `make_pair(Ty1&& first, Ty2&& second)` returns `pair<Ty1, Ty2>` without
  decaying the types (utils.h:471-474). For lvalue arguments `Ty1` and `Ty2` are deduced as
  reference types, so the result is a pair of references that aliases the arguments:
  assigning to `x` afterwards changes `p.first`, and assigning to `p.first` writes to `x`.
  The model returns a fresh pair of copies, which is the rvalue case only. The aliasing is
  not captured.
- YUtils.MakePair: the same, at yccstl/utils/utils.h:233-236.
- Move constructors and move assignment are modelled as copies. The moved-from object's
  state is not modelled.
- `reverse_iterator::operator->`, which returns a pointer.
- The default-constructed `reverse_iterator`.
- The doc comments at set_algo.h:13 and set_algo.h:64 have the words for intersection and
  union swapped. The model follows the code.
- Utils.Pair.Swap: pair::swap compares `this != other`, a pointer with an object
  (utils.h:355), so as written it does not compile when instantiated. The model states the
  intended exchange.
- YUtils.Pair.Swap: yccstl has the same defect, at yccstl/utils/utils.h:191.
- Utils.SwapRange: requires the two ranges to be in different arrays. Overlapping ranges
  inside one array are not modelled.
- YUtils.SwapRange: the same restriction.
- Numeric.Accumulate: integers are unbounded; overflow of a fixed-width element type is not
  modelled.
- Numeric.InnerProduct: the same, for the products and the sum.
- Numeric.PartialSum: the same.
- Numeric.AdjacentDifference: the same, for the differences.
- Numeric.Iota: the same, for the incremented value.
- The numeric algorithms read the input as a sequence, so in-place use is not modelled
  (`result == first`, which the C++ allows).
- The set algorithms' assumptions: their counts assume a strict total order, where
  equivalent elements are equal. Sortedness only needs a strict weak order.
- Iterators.AdvanceInput: a negative `n` makes `while (n--)` step past the end of the range
  without stopping. The model requires `n >= 0`.
- Iterators.DistanceStepping: it requires `last` reachable from `first`, as the C++ loop
  does.
- The set loops carry a ghost record `w` of the values emitted so far. The methods return
  it only for the proof.
- Functional.Plus: the arithmetic functors are templates on `T` and are modelled on unbounded
  `int`. On a fixed-width type, unsigned `plus` wraps modulo 2^w and signed overflow is
  undefined; neither is modelled.
- Functional.Minus: the same, for the difference.
- Functional.Multiplies: the same, for the product.
- Functional.Negate: the same; negating the minimum value of a signed type is undefined, and
  unsigned negation wraps.
- Functional.Divides: the same; `INT_MIN / -1` is undefined in C++ and is not modelled.
- Functional.Modulus: the same; `INT_MIN % -1` is undefined in C++ and is not modelled.
- Functional.NegateLaws: stated on unbounded integers, so `Negate(Negate(x)) == x` and
  `Divides(x, -1) == Negate(x)` have no C++ counterpart at a signed type's minimum value.
- Functional.DivisionLaws: stated on unbounded integers, without the undefined
  `INT_MIN / -1` and `INT_MIN % -1` cases.
- Functional.IntegerHash: modelled for a 64-bit `size_t` and signed or unsigned values that
  fit 64 bits. Narrower integer types are the same cast.
- Functional.BitwiseHash64: bytes are a sequence of `bv8`. The `size_t count` limit is not
  modelled.

## Findings

| source | as written | input that shows it | evidently intended | confidence | as-written member | corrected member |
|---|---|---|---|---|---|---|
| ccystl/algorithm/set_algo.h:25-27 | when `*first2 < *first1`, set_union outputs `*first2` but advances `first1` (also in the comparator overload at 49-51) | S1 = [2], S2 = [1] yields [1, 1] | advance `first2`, giving [1, 2], where each value occurs max(c1, c2) times | not executed | SetAlgo.UnionAsWrittenLosesElements | SetAlgo.UnionCount |
