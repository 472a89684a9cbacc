/**
  The four heap algorithms of ccystl/algorithm/heap_algo.h (push_heap, pop_heap, sort_heap,
  make_heap) and their helpers push_heap_aux and adjust_heap.

  Each algorithm is given twice: as a function on sequences that takes the same steps as
  the source (the specification), and as a method that works in place on an array, proved
  to leave the array equal to what the function computes.  Lemmas prove what the
  specification functions promise: a heap, a permutation, a sorted range, and nothing
  outside the range touched.  A range `[first, last)` is the prefix `a[..last]`.
  The `<` overloads are the comparator overloads with `comp == Functional.Less`.
 */
module HeapAlgo {
  import opened Order
  import opened Heap
  import Functional

  // ---------------------------------------------------------------------------------------
  // Specification functions

  /** push_heap_aux: while the hole is below `top` and its parent is ordered before `value`,
      the parent moves down into the hole; then `value` fills the hole.  Returns the range
      after the pass. */
  function PushUp<T>(s: seq<T>, hole: nat, top: nat, value: T, comp: (T, T) -> bool): (r: seq<T>)
    requires hole < |s|
    ensures |r| == |s|
    decreases hole
  {
    if hole > top && comp(s[Parent(hole)], value) then
      PushUp(s[hole := s[Parent(hole)]], Parent(hole), top, value, comp)
    else
      s[hole := value]
  }

  /** The downward pass of adjust_heap: while the hole has two children in `[0, len)`, the
      right child moves up unless it is ordered before the left one, in which case the left
      child does; if the hole then has only a left child, that child moves up.  Returns the
      range after the pass and the position the hole ends at. */
  function SiftDown<T>(s: seq<T>, hole: nat, len: nat, comp: (T, T) -> bool): (r: (seq<T>, nat))
    requires hole < |s| && len <= |s|
    ensures |r.0| == |s| && r.1 < |s|
    decreases len - hole
  {
    var rchild := 2 * hole + 2;
    if rchild < len then
      var child := if comp(s[rchild], s[rchild - 1]) then rchild - 1 else rchild;
      SiftDown(s[hole := s[child]], child, len, comp)
    else if rchild == len then
      (s[hole := s[rchild - 1]], rchild - 1)
    else
      (s, hole)
  }

  /** adjust_heap: the downward pass from `hole`, then push_heap_aux from where the hole
      ended, never above `hole`. */
  function AdjustHeapSpec<T>(s: seq<T>, hole: nat, len: nat, value: T, comp: (T, T) -> bool): (r: seq<T>)
    requires hole < |s| && len <= |s|
    ensures |r| == |s|
  {
    var (t, leaf) := SiftDown(s, hole, len, comp);
    PushUp(t, leaf, hole, value, comp)
  }

  /** push_heap on `[0, last)`: push_heap_aux of the last element from `last - 1` up to 0. */
  function PushHeapSpec<T>(s: seq<T>, last: nat, comp: (T, T) -> bool): (r: seq<T>)
    requires 0 < last <= |s|
    ensures |r| == |s|
  {
    PushUp(s, last - 1, 0, s[last - 1], comp)
  }

  /** pop_heap on `[0, last)`: the first element is written to `last - 1`, and the old last
      element is sifted in from the root over `[0, last - 1)`. */
  function PopHeapSpec<T>(s: seq<T>, last: nat, comp: (T, T) -> bool): (r: seq<T>)
    requires 0 < last <= |s|
    ensures |r| == |s|
  {
    AdjustHeapSpec(s[last - 1 := s[0]], 0, last - 1, s[last - 1], comp)
  }

  /** sort_heap on `[0, last)`: pop_heap while more than one element is left. */
  function SortHeapSpec<T>(s: seq<T>, last: nat, comp: (T, T) -> bool): (r: seq<T>)
    requires last <= |s|
    ensures |r| == |s|
    decreases last
  {
    if last > 1 then SortHeapSpec(PopHeapSpec(s, last, comp), last - 1, comp) else s
  }

  /** The loop of make_heap from `hole` down to the root: adjust_heap of each node with its
      own value. */
  function MakeHeapFrom<T>(s: seq<T>, hole: nat, len: nat, comp: (T, T) -> bool): (r: seq<T>)
    requires hole < len <= |s|
    ensures |r| == |s|
    decreases hole
  {
    var t := AdjustHeapSpec(s, hole, len, s[hole], comp);
    if hole == 0 then t else MakeHeapFrom(t, hole - 1, len, comp)
  }

  /** make_heap on `[0, last)`: nothing for fewer than two elements, otherwise the loop from
      the last node that has a child. */
  function MakeHeapSpec<T>(s: seq<T>, last: nat, comp: (T, T) -> bool): (r: seq<T>)
    requires last <= |s|
    ensures |r| == |s|
  {
    if last < 2 then s else MakeHeapFrom(s, (last - 2) / 2, last, comp)
  }

  // ---------------------------------------------------------------------------------------
  // What the specification functions promise

  /** push_heap_aux only moves elements along the path from `hole` up: the result is a
      permutation of the range with `value` in the hole, nothing after `hole` changes, and
      nothing before `top` when `hole` is in the subtree of `top`. */
  lemma {:induction false} PushUpFrame<T>(s: seq<T>, hole: nat, top: nat, value: T, comp: (T, T) -> bool)
    requires hole < |s|
    ensures multiset(PushUp(s, hole, top, value, comp)) == multiset(s[hole := value])
    ensures InSubtree(top, hole) ==> PushUp(s, hole, top, value, comp)[..top] == s[..top]
    ensures PushUp(s, hole, top, value, comp)[hole + 1..] == s[hole + 1..]
    decreases hole
  {
    var r := PushUp(s, hole, top, value, comp);
    if hole > top && comp(s[Parent(hole)], value) {
      var p := Parent(hole);
      var t := s[hole := s[p]];
      MoveIntoHole(s, hole, p, value);
      PushUpFrame(t, p, top, value, comp);
      assert r[hole + 1..] == r[p + 1..][hole - p..];
      if InSubtree(top, hole) {
        InSubtreeGe(top, p);
        assert t[..top] == s[..top];
      }
    } else if InSubtree(top, hole) {
      InSubtreeGe(top, hole);
    }
  }

  /** push_heap_aux writes only positions on the path from `hole` up through its ancestors:
      every position `k` that `hole` does not lie below keeps its value. */
  lemma {:induction false} PushUpPath<T>(s: seq<T>, hole: nat, top: nat, value: T, comp: (T, T) -> bool, k: nat)
    requires hole < |s| && k < |s| && !InSubtree(k, hole)
    ensures PushUp(s, hole, top, value, comp)[k] == s[k]
    decreases hole
  {
    if hole > top && comp(s[Parent(hole)], value) {
      var p := Parent(hole);
      PushUpPath(s[hole := s[p]], p, top, value, comp, k);
    }
  }

  /** push_heap_aux writes only inside the subtree of `top` when `hole` lies in it: every
      position outside that subtree keeps its value. */
  lemma {:induction false} PushUpInSubtree<T>(s: seq<T>, hole: nat, top: nat, value: T, comp: (T, T) -> bool, k: nat)
    requires hole < |s| && k < |s| && InSubtree(top, hole) && !InSubtree(top, k)
    ensures PushUp(s, hole, top, value, comp)[k] == s[k]
    decreases hole
  {
    if hole > top && comp(s[Parent(hole)], value) {
      PushUpInSubtree(s[hole := s[Parent(hole)]], Parent(hole), top, value, comp, k);
    }
  }

  /** push_heap_aux fills a hole correctly: if the subtree of `top` is a heap with a hole
      at `hole` into which `value` fits from below, the result makes that subtree a heap. */
  lemma {:induction false} PushUpHeap<T(!new)>(s: seq<T>, hole: nat, top: nat, len: nat, value: T, comp: (T, T) -> bool)
    requires StrictWeakOrder(comp)
    requires len <= |s| && top <= hole < |s| && (hole < len || hole == top) && InSubtree(top, hole)
    requires HoleOrdered(s, hole, top, len, comp) && FitsAbove(s, hole, len, value, comp)
    ensures SubtreeHeap(PushUp(s, hole, top, value, comp), top, len, comp)
    decreases hole
  {
    if hole > top && comp(s[Parent(hole)], value) {
      var p := Parent(hole);
      assert InSubtree(top, p);
      AscentStep(s, hole, top, len, value, comp);
      PushUpHeap(s[hole := s[p]], p, top, len, value, comp);
    } else {
      AscentStop(s, hole, top, len, value, comp);
    }
  }

  /** The downward pass of adjust_heap ends at or below its start, at a node without
      children in `[0, len)`, and inside the range unless it never moved. */
  lemma {:induction false} SiftDownLeaf<T>(s: seq<T>, hole: nat, len: nat, comp: (T, T) -> bool)
    requires hole < |s| && len <= |s|
    ensures hole <= SiftDown(s, hole, len, comp).1
    ensures SiftDown(s, hole, len, comp).1 < len || SiftDown(s, hole, len, comp).1 == hole
    ensures len <= 2 * SiftDown(s, hole, len, comp).1 + 1
    decreases len - hole
  {
    var rchild := 2 * hole + 2;
    if rchild < len {
      var child := if comp(s[rchild], s[rchild - 1]) then rchild - 1 else rchild;
      SiftDownLeaf(s[hole := s[child]], child, len, comp);
      assert SiftDown(s, hole, len, comp) == SiftDown(s[hole := s[child]], child, len, comp);
    }
  }

  /** The downward pass of adjust_heap only moves elements along its path: once `value`
      fills the hole, the range is a permutation of the start with `value` at `hole`. */
  lemma {:induction false} SiftDownPermutes<T>(s: seq<T>, hole: nat, len: nat, value: T, comp: (T, T) -> bool)
    requires hole < |s| && len <= |s|
    ensures multiset(SiftDown(s, hole, len, comp).0[SiftDown(s, hole, len, comp).1 := value]) == multiset(s[hole := value])
    decreases len - hole
  {
    var rchild := 2 * hole + 2;
    var r := SiftDown(s, hole, len, comp);
    if rchild < len {
      var child := if comp(s[rchild], s[rchild - 1]) then rchild - 1 else rchild;
      var u := s[hole := s[child]];
      assert r == SiftDown(u, child, len, comp);
      SiftDownPermutes(u, child, len, value, comp);
      MoveIntoHole(s, hole, child, value);
    } else if rchild == len {
      assert r == (s[hole := s[rchild - 1]], rchild - 1);
      MoveIntoHole(s, hole, rchild - 1, value);
    } else {
      assert r == (s, hole);
    }
  }

  /** The downward pass of adjust_heap changes nothing before `hole` or from `len` on. */
  lemma {:induction false} SiftDownFrame<T>(s: seq<T>, hole: nat, len: nat, comp: (T, T) -> bool)
    requires hole < |s| && len <= |s|
    ensures SiftDown(s, hole, len, comp).0[..hole] == s[..hole]
    ensures SiftDown(s, hole, len, comp).0[len..] == s[len..]
    decreases len - hole
  {
    var rchild := 2 * hole + 2;
    if rchild < len {
      var child := if comp(s[rchild], s[rchild - 1]) then rchild - 1 else rchild;
      var u := s[hole := s[child]];
      SiftDownFrame(u, child, len, comp);
      var t := SiftDown(s, hole, len, comp).0;
      assert t == SiftDown(u, child, len, comp).0;
      assert t[..hole] == t[..child][..hole] == u[..child][..hole];
      assert u[..child][..hole] == u[..hole] == s[..hole];
      assert u[len..] == s[len..];
    }
  }

  /** The downward pass of adjust_heap writes only inside the subtree of `top` when it starts
      there: every position outside that subtree keeps its value. */
  lemma {:induction false} SiftDownInSubtree<T>(s: seq<T>, hole: nat, top: nat, len: nat, comp: (T, T) -> bool, k: nat)
    requires hole < |s| && len <= |s| && k < |s| && InSubtree(top, hole) && !InSubtree(top, k)
    ensures SiftDown(s, hole, len, comp).0[k] == s[k]
    decreases len - hole
  {
    var rchild := 2 * hole + 2;
    if rchild < len {
      var child := if comp(s[rchild], s[rchild - 1]) then rchild - 1 else rchild;
      InSubtreeChild(top, hole, child);
      SiftDownInSubtree(s[hole := s[child]], child, top, len, comp, k);
      assert SiftDown(s, hole, len, comp) == SiftDown(s[hole := s[child]], child, len, comp);
    }
  }

  /** The downward pass of adjust_heap keeps the hole layout below `top`. */
  lemma {:induction false} SiftDownOrdered<T(!new)>(s: seq<T>, hole: nat, top: nat, len: nat, comp: (T, T) -> bool)
    requires StrictWeakOrder(comp)
    requires len <= |s| && top <= hole < |s| && InSubtree(top, hole)
    requires HoleOrdered(s, hole, top, len, comp)
    ensures InSubtree(top, SiftDown(s, hole, len, comp).1)
    ensures HoleOrdered(SiftDown(s, hole, len, comp).0, SiftDown(s, hole, len, comp).1, top, len, comp)
    decreases len - hole
  {
    var rchild := 2 * hole + 2;
    if rchild < len {
      var child := if comp(s[rchild], s[rchild - 1]) then rchild - 1 else rchild;
      LargerChild(s, hole, len, child, comp);
      DescentStep(s, hole, top, len, child, comp);
      SiftDownOrdered(s[hole := s[child]], child, top, len, comp);
      assert SiftDown(s, hole, len, comp) == SiftDown(s[hole := s[child]], child, len, comp);
    } else if rchild == len {
      LargerChild(s, hole, len, rchild - 1, comp);
      DescentStep(s, hole, top, len, rchild - 1, comp);
      assert SiftDown(s, hole, len, comp) == (s[hole := s[rchild - 1]], rchild - 1);
    }
  }

  /** adjust_heap: if both child subtrees of `hole` (cut off at `len`) are heaps, the subtree
      of `hole` is a heap afterwards; the range is a permutation of the start with `value` at
      `hole`; no position outside the subtree of `hole` changes, nor any from `len` on,
      except `hole` itself when `hole == len`. */
  lemma AdjustHeapCorrect<T(!new)>(s: seq<T>, hole: nat, len: nat, value: T, comp: (T, T) -> bool)
    requires StrictWeakOrder(comp)
    requires hole <= len <= |s| && hole < |s|
    requires forall i {:trigger Parent(i)} :: 0 < i < len && Parent(i) != hole && InSubtree(hole, Parent(i)) ==>
               !comp(s[Parent(i)], s[i])
    ensures SubtreeHeap(AdjustHeapSpec(s, hole, len, value, comp), hole, len, comp)
    ensures multiset(AdjustHeapSpec(s, hole, len, value, comp)) == multiset(s[hole := value])
    ensures forall k :: 0 <= k < |s| && !InSubtree(hole, k) ==> AdjustHeapSpec(s, hole, len, value, comp)[k] == s[k]
    ensures hole < len ==> AdjustHeapSpec(s, hole, len, value, comp)[len..] == s[len..]
    ensures hole == len ==> AdjustHeapSpec(s, hole, len, value, comp) == s[hole := value]
  {
    HoleAtTop(s, hole, len, comp);
    SiftDownLeaf(s, hole, len, comp);
    SiftDownPermutes(s, hole, len, value, comp);
    SiftDownFrame(s, hole, len, comp);
    SiftDownOrdered(s, hole, hole, len, comp);
    var (t, leaf) := SiftDown(s, hole, len, comp);
    LeafFits(t, leaf, len, value, comp);
    PushUpFrame(t, leaf, hole, value, comp);
    PushUpHeap(t, leaf, hole, len, value, comp);
    var r := PushUp(t, leaf, hole, value, comp);
    forall k | 0 <= k < |s| && !InSubtree(hole, k)
      ensures r[k] == s[k]
    {
      SiftDownInSubtree(s, hole, hole, len, comp, k);
      PushUpInSubtree(t, leaf, hole, value, comp, k);
    }
    if hole < len {
      assert r[len..] == r[leaf + 1..][len - leaf - 1..];
      assert t[len..] == t[leaf + 1..][len - leaf - 1..];
    }
  }

  /** adjust_heap as make_heap and pop_heap use it: if every edge below `hole` in `[0, len)`
      is ordered, every edge from `hole` on is afterwards; nothing before `hole` changes. */
  lemma AdjustHeapSuffix<T(!new)>(s: seq<T>, hole: nat, len: nat, value: T, comp: (T, T) -> bool)
    requires StrictWeakOrder(comp)
    requires hole <= len <= |s| && hole < |s| && HeapFrom(s, hole + 1, len, comp)
    ensures HeapFrom(AdjustHeapSpec(s, hole, len, value, comp), hole, len, comp)
    ensures multiset(AdjustHeapSpec(s, hole, len, value, comp)) == multiset(s[hole := value])
    ensures AdjustHeapSpec(s, hole, len, value, comp)[..hole] == s[..hole]
    ensures hole < len ==> AdjustHeapSpec(s, hole, len, value, comp)[len..] == s[len..]
    ensures hole == len ==> AdjustHeapSpec(s, hole, len, value, comp) == s[hole := value]
  {
    forall i | 0 < i < len && Parent(i) != hole && InSubtree(hole, Parent(i))
      ensures !comp(s[Parent(i)], s[i])
    {
      InSubtreeGe(hole, Parent(i));
    }
    AdjustHeapCorrect(s, hole, len, value, comp);
    var r := AdjustHeapSpec(s, hole, len, value, comp);
    forall i | 0 < i < len && hole <= Parent(i)
      ensures !comp(r[Parent(i)], r[i])
    {
      if !InSubtree(hole, Parent(i)) {
        assert !InSubtree(hole, i);
        assert r[Parent(i)] == s[Parent(i)] && r[i] == s[i];
      }
    }
    forall k | 0 <= k < hole
      ensures r[k] == s[k]
    {
      if InSubtree(hole, k) {
        InSubtreeGe(hole, k);
      }
    }
  }

  /** push_heap: if `[0, last - 1)` is a heap, `[0, last)` is one afterwards, holding the same
      elements, and nothing from `last` on changes. */
  lemma PushHeapCorrect<T(!new)>(s: seq<T>, last: nat, comp: (T, T) -> bool)
    requires StrictWeakOrder(comp)
    requires 0 < last <= |s| && IsHeap(s, last - 1, comp)
    ensures IsHeap(PushHeapSpec(s, last, comp), last, comp)
    ensures multiset(PushHeapSpec(s, last, comp)) == multiset(s)
    ensures PushHeapSpec(s, last, comp)[last..] == s[last..]
  {
    HoleAtEnd(s, last, comp);
    InSubtreeOfRoot(last - 1);
    PushUpFrame(s, last - 1, 0, s[last - 1], comp);
    PushUpHeap(s, last - 1, 0, last, s[last - 1], comp);
    RootSubtreeHeap(PushHeapSpec(s, last, comp), last, comp);
    assert s[last - 1 := s[last - 1]] == s;
  }

  /** pop_heap: the maximum `s[0]` of the heap `[0, last)` ends at `last - 1`, `[0, last - 1)`
      is a heap of the other elements, and nothing from `last` on changes. */
  lemma PopHeapCorrect<T(!new)>(s: seq<T>, last: nat, comp: (T, T) -> bool)
    requires StrictWeakOrder(comp)
    requires 0 < last <= |s| && IsHeap(s, last, comp)
    ensures PopHeapSpec(s, last, comp)[last - 1] == s[0]
    ensures IsHeap(PopHeapSpec(s, last, comp), last - 1, comp)
    ensures multiset(PopHeapSpec(s, last, comp)) == multiset(s)
    ensures PopHeapSpec(s, last, comp)[last..] == s[last..]
  {
    var u := s[last - 1 := s[0]];
    HeapDropLast(s, last, s[0], comp);
    AdjustHeapSuffix(u, 0, last - 1, s[last - 1], comp);
    SwapMultiset(s, last - 1, 0);
    var r := PopHeapSpec(s, last, comp);
    if last > 1 {
      assert r[last - 1] == r[last - 1..][0];
      assert r[last..] == r[last - 1..][1..];
    }
  }

  /** The loop of sort_heap: if `[0, n)` is a heap, `[n, last)` is sorted and no element of
      `[0, n)` is ordered after one of `[n, last)`, the loop leaves `[0, last)` sorted, as a
      permutation, with nothing from `n` on changed. */
  lemma {:induction false} SortHeapLoopCorrect<T(!new)>(s: seq<T>, n: nat, last: nat, comp: (T, T) -> bool)
    requires StrictWeakOrder(comp)
    requires n <= last <= |s| && IsHeap(s, n, comp)
    requires SortedRange(s, n, last, comp) && PrefixBelow(s, n, last, comp)
    ensures SortedRange(SortHeapSpec(s, n, comp), 0, last, comp)
    ensures multiset(SortHeapSpec(s, n, comp)) == multiset(s)
    ensures SortHeapSpec(s, n, comp)[n..] == s[n..]
    decreases n
  {
    if n > 1 {
      var t := PopHeapSpec(s, n, comp);
      PopHeapCorrect(s, n, comp);
      PrefixMultiset(t, s, n);
      SortStep(s, t, n, last, comp);
      SortHeapLoopCorrect(t, n - 1, last, comp);
      var r := SortHeapSpec(s, n, comp);
      assert r[n..] == r[n - 1..][1..];
      assert t[n..] == t[n - 1..][1..];
    } else {
      forall i, j | 0 <= i < j < last
        ensures !comp(s[j], s[i])
      {
        if i >= n {
          assert n <= i < j < last;
        } else {
          assert 0 <= i < n <= j < last;
        }
      }
    }
  }

  /** sort_heap: a heap `[0, last)` becomes a sorted permutation of itself. */
  lemma SortHeapCorrect<T(!new)>(s: seq<T>, last: nat, comp: (T, T) -> bool)
    requires StrictWeakOrder(comp)
    requires last <= |s| && IsHeap(s, last, comp)
    ensures SortedRange(SortHeapSpec(s, last, comp), 0, last, comp)
    ensures multiset(SortHeapSpec(s, last, comp)[..last]) == multiset(s[..last])
    ensures SortHeapSpec(s, last, comp)[last..] == s[last..]
  {
    SortHeapLoopCorrect(s, last, last, comp);
    PrefixMultiset(SortHeapSpec(s, last, comp), s, last);
  }

  /** The loop of make_heap: if every node after `hole` heads a heap, the loop leaves
      `[0, len)` a heap, as a permutation, with nothing from `len` on changed. */
  lemma {:induction false} MakeHeapLoopCorrect<T(!new)>(s: seq<T>, hole: nat, len: nat, comp: (T, T) -> bool)
    requires StrictWeakOrder(comp)
    requires hole < len <= |s| && HeapFrom(s, hole + 1, len, comp)
    ensures IsHeap(MakeHeapFrom(s, hole, len, comp), len, comp)
    ensures multiset(MakeHeapFrom(s, hole, len, comp)) == multiset(s)
    ensures MakeHeapFrom(s, hole, len, comp)[len..] == s[len..]
    decreases hole
  {
    var t := AdjustHeapSpec(s, hole, len, s[hole], comp);
    AdjustHeapSuffix(s, hole, len, s[hole], comp);
    assert s[hole := s[hole]] == s;
    if hole > 0 {
      MakeHeapLoopCorrect(t, hole - 1, len, comp);
    }
  }

  /** make_heap: `[0, last)` becomes a heap holding the same elements, and nothing from
      `last` on changes; fewer than two elements are left as they are. */
  lemma MakeHeapCorrect<T(!new)>(s: seq<T>, last: nat, comp: (T, T) -> bool)
    requires StrictWeakOrder(comp)
    requires last <= |s|
    ensures IsHeap(MakeHeapSpec(s, last, comp), last, comp)
    ensures multiset(MakeHeapSpec(s, last, comp)) == multiset(s)
    ensures MakeHeapSpec(s, last, comp)[last..] == s[last..]
    ensures last < 2 ==> MakeHeapSpec(s, last, comp) == s
  {
    if last >= 2 {
      LeavesAreHeap(s, last, comp);
      MakeHeapLoopCorrect(s, (last - 2) / 2, last, comp);
    }
  }

  /** The `<` overloads on integers: a heap by `<` is a max-heap, no child exceeding its
      parent. */
  lemma HeapOfInts(s: seq<int>, len: nat)
    requires len <= |s|
    ensures IsHeap(s, len, Functional.Less) <==> forall i :: 0 < i < len ==> s[i] <= s[Parent(i)]
  {
  }

  /** The `<` overloads on integers: make_heap and then sort_heap leave any range in
      non-decreasing order, holding the same elements. */
  lemma HeapSortOfInts(s: seq<int>)
    ensures var t := SortHeapSpec(MakeHeapSpec(s, |s|, Functional.Less), |s|, Functional.Less);
            multiset(t) == multiset(s) && forall i, j :: 0 <= i < j < |t| ==> t[i] <= t[j]
  {
    Functional.LessIsStrictTotalOrder();
    var h := MakeHeapSpec(s, |s|, Functional.Less);
    MakeHeapCorrect(s, |s|, Functional.Less);
    SortHeapCorrect(h, |s|, Functional.Less);
    var t := SortHeapSpec(h, |s|, Functional.Less);
    assert t[..|s|] == t && h[..|s|] == h;
  }

  /** push_heap_aux reads and writes nothing at or after `n > hole`. */
  lemma {:induction false} PushUpPrefix<T>(s: seq<T>, hole: nat, top: nat, value: T, comp: (T, T) -> bool, n: nat)
    requires hole < n <= |s|
    ensures PushUp(s, hole, top, value, comp)[..n] == PushUp(s[..n], hole, top, value, comp)
    decreases hole
  {
    if hole > top && comp(s[Parent(hole)], value) {
      var p := Parent(hole);
      assert s[..n][p] == s[p];
      PushUpPrefix(s[hole := s[p]], p, top, value, comp, n);
      assert s[hole := s[p]][..n] == s[..n][hole := s[..n][p]];
    } else {
      assert s[..n][Parent(hole)] == s[Parent(hole)];
      assert s[hole := value][..n] == s[..n][hole := value];
    }
  }

  /** The downward pass of adjust_heap reads and writes nothing at or after `n >= len`. */
  lemma {:induction false} SiftDownPrefix<T>(s: seq<T>, hole: nat, len: nat, comp: (T, T) -> bool, n: nat)
    requires hole < n && len <= n <= |s|
    ensures SiftDown(s, hole, len, comp).0[..n] == SiftDown(s[..n], hole, len, comp).0
    ensures SiftDown(s, hole, len, comp).1 == SiftDown(s[..n], hole, len, comp).1
    decreases len - hole
  {
    var rchild := 2 * hole + 2;
    var r, q := SiftDown(s, hole, len, comp), SiftDown(s[..n], hole, len, comp);
    if rchild < len {
      assert s[..n][rchild] == s[rchild] && s[..n][rchild - 1] == s[rchild - 1];
      var child := if comp(s[rchild], s[rchild - 1]) then rchild - 1 else rchild;
      assert s[hole := s[child]][..n] == s[..n][hole := s[..n][child]];
      assert r == SiftDown(s[hole := s[child]], child, len, comp);
      assert q == SiftDown(s[..n][hole := s[..n][child]], child, len, comp);
      SiftDownPrefix(s[hole := s[child]], child, len, comp, n);
    } else if rchild == len {
      assert r == (s[hole := s[rchild - 1]], rchild - 1);
      assert q == (s[..n][hole := s[..n][rchild - 1]], rchild - 1);
      assert s[hole := s[rchild - 1]][..n] == s[..n][hole := s[..n][rchild - 1]];
    } else {
      assert r == (s, hole) && q == (s[..n], hole);
    }
  }

  /** push_heap on `[0, last)` depends on and changes only `[0, n)` for any `n >= last`. */
  lemma PushHeapPrefix<T>(s: seq<T>, last: nat, comp: (T, T) -> bool, n: nat)
    requires 0 < last <= n <= |s|
    ensures PushHeapSpec(s, last, comp)[..n] == PushHeapSpec(s[..n], last, comp)
  {
    PushUpPrefix(s, last - 1, 0, s[last - 1], comp, n);
  }

  /** pop_heap on `[0, last)` depends on and changes only `[0, n)` for any `n >= last`. */
  lemma PopHeapPrefix<T>(s: seq<T>, last: nat, comp: (T, T) -> bool, n: nat)
    requires 0 < last <= n <= |s|
    ensures PopHeapSpec(s, last, comp)[..n] == PopHeapSpec(s[..n], last, comp)
  {
    var u := s[last - 1 := s[0]];
    assert u[..n] == s[..n][last - 1 := s[..n][0]];
    SiftDownPrefix(u, 0, last - 1, comp, n);
    var (t, leaf) := SiftDown(u, 0, last - 1, comp);
    SiftDownLeaf(u, 0, last - 1, comp);
    PushUpPrefix(t, leaf, 0, s[last - 1], comp, n);
  }

  // ---------------------------------------------------------------------------------------
  // The algorithms, in place

  /** push_heap_aux on `a`, with the hole at `hole`. */
  method PushHeapAux<T>(a: array<T>, hole: nat, top: nat, value: T, comp: (T, T) -> bool)
    requires hole < a.Length
    modifies a
    ensures a[..] == PushUp(old(a[..]), hole, top, value, comp)
  {
    var h: nat := hole;
    var parent := Parent(h);
    while h > top && comp(a[parent], value)
      invariant h < a.Length && parent == Parent(h)
      invariant PushUp(a[..], h, top, value, comp) == PushUp(old(a[..]), hole, top, value, comp)
      decreases h
    {
      ghost var s := a[..];
      a[h] := a[parent];
      assert a[..] == s[h := s[parent]];
      h := parent;
      parent := Parent(h);
    }
    a[h] := value;
  }

  /** adjust_heap on `a`: the downward pass, then push_heap_aux. */
  method AdjustHeap<T>(a: array<T>, hole: nat, len: nat, value: T, comp: (T, T) -> bool)
    requires hole < a.Length && len <= a.Length
    modifies a
    ensures a[..] == AdjustHeapSpec(old(a[..]), hole, len, value, comp)
  {
    var top := hole;
    var h := hole;
    var rchild := 2 * h + 2;
    while rchild < len
      invariant h < a.Length && rchild == 2 * h + 2
      invariant SiftDown(a[..], h, len, comp) == SiftDown(old(a[..]), hole, len, comp)
      decreases len - h
    {
      if comp(a[rchild], a[rchild - 1]) {
        rchild := rchild - 1;
      }
      ghost var s := a[..];
      a[h] := a[rchild];
      assert a[..] == s[h := s[rchild]];
      h := rchild;
      rchild := 2 * (rchild + 1);
    }
    if rchild == len {
      ghost var s := a[..];
      a[h] := a[rchild - 1];
      assert a[..] == s[h := s[rchild - 1]];
      h := rchild - 1;
    }
    PushHeapAux(a, h, top, value, comp);
  }

  /** push_heap on `a[..last]`: the element at `last - 1` joins the heap `a[..last - 1]`. */
  method PushHeap<T(!new)>(a: array<T>, last: nat, comp: (T, T) -> bool)
    requires StrictWeakOrder(comp)
    requires 0 < last <= a.Length && IsHeap(a[..], last - 1, comp)
    modifies a
    ensures a[..] == PushHeapSpec(old(a[..]), last, comp)
    ensures IsHeap(a[..], last, comp) && multiset(a[..]) == multiset(old(a[..]))
    ensures a[last..] == old(a[last..])
  {
    PushHeapCorrect(a[..], last, comp);
    PushHeapAux(a, last - 1, 0, a[last - 1], comp);
  }

  /** pop_heap on `a[..last]`: the maximum moves to `last - 1` and `a[..last - 1]` is made a
      heap of the other elements. */
  method PopHeap<T(!new)>(a: array<T>, last: nat, comp: (T, T) -> bool)
    requires StrictWeakOrder(comp)
    requires 0 < last <= a.Length && IsHeap(a[..], last, comp)
    modifies a
    ensures a[..] == PopHeapSpec(old(a[..]), last, comp)
    ensures a[last - 1] == old(a[0]) && IsHeap(a[..], last - 1, comp)
    ensures multiset(a[..]) == multiset(old(a[..])) && a[last..] == old(a[last..])
  {
    PopHeapCorrect(a[..], last, comp);
    PopHeapAux(a, last, comp);
  }

  /** sort_heap on `a[..last]`: pop_heap while more than one element is left. */
  method SortHeap<T(!new)>(a: array<T>, last: nat, comp: (T, T) -> bool)
    requires StrictWeakOrder(comp)
    requires last <= a.Length && IsHeap(a[..], last, comp)
    modifies a
    ensures a[..] == SortHeapSpec(old(a[..]), last, comp)
    ensures SortedRange(a[..], 0, last, comp)
    ensures multiset(a[..last]) == multiset(old(a[..last])) && a[last..] == old(a[last..])
  {
    SortHeapCorrect(a[..], last, comp);
    var n: nat := last;
    while n > 1
      invariant n <= last
      invariant SortHeapSpec(a[..], n, comp) == SortHeapSpec(old(a[..]), last, comp)
      decreases n
    {
      PopHeapAux(a, n, comp);
      n := n - 1;
    }
  }

  /** pop_heap_aux as pop_heap calls it, with no assumption about the range: the first
      element is stored at `last - 1` and the old last element is adjusted in from the root;
      the array becomes what pop_heap computes. */
  method PopHeapAux<T>(a: array<T>, last: nat, comp: (T, T) -> bool)
    requires 0 < last <= a.Length
    modifies a
    ensures a[..] == PopHeapSpec(old(a[..]), last, comp)
  {
    ghost var s := a[..];
    var value := a[last - 1];
    a[last - 1] := a[0];
    assert a[..] == s[last - 1 := s[0]];
    AdjustHeap(a, 0, last - 1, value, comp);
  }

  /** make_heap on `a[..last]`: adjust_heap of every node that has a child, from the last
      one down to the root. */
  method MakeHeap<T(!new)>(a: array<T>, last: nat, comp: (T, T) -> bool)
    requires StrictWeakOrder(comp)
    requires last <= a.Length
    modifies a
    ensures a[..] == MakeHeapSpec(old(a[..]), last, comp)
    ensures IsHeap(a[..], last, comp) && multiset(a[..]) == multiset(old(a[..]))
    ensures a[last..] == old(a[last..])
  {
    MakeHeapCorrect(a[..], last, comp);
    if last < 2 {
      return;
    }
    var len := last;
    var hole: nat := (len - 2) / 2;
    while true
      invariant hole < len
      invariant MakeHeapFrom(a[..], hole, len, comp) == MakeHeapSpec(old(a[..]), last, comp)
      decreases hole
    {
      AdjustHeap(a, hole, len, a[hole], comp);
      if hole == 0 {
        return;
      }
      hole := hole - 1;
    }
  }
}
