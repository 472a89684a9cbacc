/**
  The implicit binary tree of ccystl/algorithm/heap_algo.h and the facts about it that the
  heap algorithms rely on.

  A range `[first, first + len)` is modelled as the prefix `s[..len]` of a sequence: every
  index the source computes is relative to `first`.  The heap is a max-heap with respect to
  `comp` ("ordered before"): no parent is ordered before one of its children.
 */
module Heap {
  import opened Order

  /** Index of the parent of node `i`.  C++ truncates `(0 - 1) / 2` to 0. */
  function Parent(i: nat): (p: nat)
    ensures i == 0 ==> p == 0
    ensures i > 0 ==> p < i
  {
    if i == 0 then 0 else (i - 1) / 2
  }

  /** Node `k` is `root` or lies below it in the implicit binary tree. */
  ghost predicate InSubtree(root: nat, k: nat)
    decreases k
  {
    k == root || (k > root && InSubtree(root, Parent(k)))
  }

  /** Every edge (Parent(i), i) inside `[0, len)` whose parent is at or after `top`
      is ordered: the parent is not ordered before the child. */
  ghost predicate HeapFrom<T>(s: seq<T>, top: nat, len: nat, comp: (T, T) -> bool)
    requires len <= |s|
  {
    forall i {:trigger Parent(i)} :: 0 < i < len && top <= Parent(i) ==> !comp(s[Parent(i)], s[i])
  }

  /** Every edge (Parent(i), i) inside `[0, len)` whose parent lies in the subtree of `top`
      is ordered: the subtree rooted at `top`, cut off at `len`, is a heap. */
  ghost predicate SubtreeHeap<T>(s: seq<T>, top: nat, len: nat, comp: (T, T) -> bool)
    requires len <= |s|
  {
    forall i {:trigger Parent(i)} :: 0 < i < len && InSubtree(top, Parent(i)) ==> !comp(s[Parent(i)], s[i])
  }

  /** `s[..len]` is a heap. */
  ghost predicate IsHeap<T>(s: seq<T>, len: nat, comp: (T, T) -> bool)
    requires len <= |s|
  {
    HeapFrom(s, 0, len, comp)
  }

  /** The layout while position `h` is a hole: every edge in the subtree of `top` that does
      not touch the hole is ordered, and the hole's parent is not ordered before the hole's
      children (so a child may be moved up into the hole). */
  ghost predicate HoleOrdered<T>(s: seq<T>, h: nat, top: nat, len: nat, comp: (T, T) -> bool)
    requires len <= |s|
  {
    && (forall i {:trigger Parent(i)} :: 0 < i < len && InSubtree(top, Parent(i)) && i != h && Parent(i) != h ==>
          !comp(s[Parent(i)], s[i]))
    && (h > top ==> forall i {:trigger Parent(i)} :: 0 < i < len && Parent(i) == h ==> !comp(s[Parent(h)], s[i]))
  }

  /** `value` may be written into the hole `h` as far as the hole's children are concerned. */
  ghost predicate FitsAbove<T>(s: seq<T>, h: nat, len: nat, value: T, comp: (T, T) -> bool)
    requires len <= |s|
  {
    forall i {:trigger Parent(i)} :: 0 < i < len && Parent(i) == h ==> !comp(value, s[i])
  }

  /** `s[lo..hi]` is in non-decreasing order with respect to `comp`. */
  ghost predicate SortedRange<T>(s: seq<T>, lo: nat, hi: nat, comp: (T, T) -> bool)
    requires lo <= hi <= |s|
  {
    forall i, j :: lo <= i < j < hi ==> !comp(s[j], s[i])
  }

  lemma {:induction false} InSubtreeOfRoot(k: nat)
    ensures InSubtree(0, k)
    decreases k
  {
    if k > 0 {
      InSubtreeOfRoot(Parent(k));
    }
  }

  /** A node lies at or after the root of any subtree it is in. */
  lemma {:induction false} InSubtreeGe(root: nat, k: nat)
    requires InSubtree(root, k)
    ensures root <= k
  {
  }

  /** The root of a heap is not ordered before any element of it: it is a maximum. */
  lemma {:induction false} HeapTop<T(!new)>(s: seq<T>, len: nat, comp: (T, T) -> bool, i: nat)
    requires StrictWeakOrder(comp)
    requires i < len <= |s| && IsHeap(s, len, comp)
    ensures !comp(s[0], s[i])
    decreases i
  {
    if i > 0 {
      HeapTop(s, len, comp, Parent(i));
      NotBeforeTransitive(comp, s[0], s[Parent(i)], s[i]);
    }
  }

  /** The root of a heap is not ordered before any of its elements. */
  lemma HeapTopAll<T(!new)>(s: seq<T>, len: nat, comp: (T, T) -> bool)
    requires StrictWeakOrder(comp)
    requires 0 < len <= |s| && IsHeap(s, len, comp)
    ensures forall i :: 0 <= i < len ==> !comp(s[0], s[i])
  {
    forall i | 0 <= i < len
      ensures !comp(s[0], s[i])
    {
      HeapTop(s, len, comp, i);
    }
  }

  /** Whether `s[..len]` is a heap depends on nothing at or after `len`. */
  lemma HeapOfPrefix<T>(s: seq<T>, len: nat, comp: (T, T) -> bool)
    requires len <= |s|
    ensures IsHeap(s, len, comp) <==> IsHeap(s[..len], len, comp)
  {
    forall i | 0 < i < len
      ensures s[..len][Parent(i)] == s[Parent(i)] && s[..len][i] == s[i]
    {
    }
  }

  /** An element that no element of `s` is ordered after stays so for any permutation `t` of `s`. */
  lemma NotBeforeAll<T>(s: seq<T>, t: seq<T>, x: T, comp: (T, T) -> bool)
    requires multiset(s) == multiset(t)
    requires forall k :: 0 <= k < |s| ==> !comp(x, s[k])
    ensures forall i :: 0 <= i < |t| ==> !comp(x, t[i])
  {
    forall i | 0 <= i < |t|
      ensures !comp(x, t[i])
    {
      assert t[i] in multiset(s);
      var k :| 0 <= k < |s| && s[k] == t[i];
    }
  }

  lemma PrefixMultiset<T>(s: seq<T>, t: seq<T>, n: nat)
    requires n <= |s| == |t| && multiset(s) == multiset(t) && s[n..] == t[n..]
    ensures multiset(s[..n]) == multiset(t[..n])
  {
    assert s == s[..n] + s[n..];
    assert t == t[..n] + t[n..];
    var sp, tp, rest := multiset(s[..n]), multiset(t[..n]), multiset(s[n..]);
    assert sp + rest == tp + rest;
    forall x
      ensures sp[x] == tp[x]
    {
      assert (sp + rest)[x] == (tp + rest)[x];
    }
  }

  /** Moving the element at `p` into the hole `h` and making `p` the hole keeps the
      multiset of the range with the hole filled by `v`. */
  lemma MoveIntoHole<T>(s: seq<T>, h: nat, p: nat, v: T)
    requires h < |s| && p < |s| && h != p
    ensures multiset(s[h := s[p]][p := v]) == multiset(s[h := v])
  {
    var t := s[h := s[p]][p := v];
    var u := s[h := v];
    assert t == u[h := s[p]][p := v];
    assert u[p] == s[p];
  }

  /** Exchanging two elements keeps the multiset. */
  lemma SwapMultiset<T>(s: seq<T>, i: nat, j: nat)
    requires i < |s| && j < |s|
    ensures multiset(s[i := s[j]][j := s[i]]) == multiset(s)
  {
    if i == j {
      assert s[i := s[j]][j := s[i]] == s;
    } else {
      MoveIntoHole(s, i, j, s[i]);
      assert s[i := s[i]] == s;
    }
  }

  /** One step of the upward pass of push_heap_aux: the parent of the hole, which is
      ordered before `value`, moves down into the hole. */
  lemma AscentStep<T(!new)>(s: seq<T>, h: nat, top: nat, len: nat, value: T, comp: (T, T) -> bool)
    requires StrictWeakOrder(comp)
    requires len <= |s| && top < h < len && InSubtree(top, h)
    requires HoleOrdered(s, h, top, len, comp) && FitsAbove(s, h, len, value, comp)
    requires comp(s[Parent(h)], value)
    ensures HoleOrdered(s[h := s[Parent(h)]], Parent(h), top, len, comp)
    ensures FitsAbove(s[h := s[Parent(h)]], Parent(h), len, value, comp)
  {
    assert InSubtree(top, Parent(h));
    AscentEdges(s, h, top, len, comp);
    if Parent(h) > top {
      AscentHoleParent(s, h, top, len, comp);
    }
    AscentFits(s, h, top, len, value, comp);
  }

  /** After the move, the edges that do not touch the new hole are ordered. */
  lemma AscentEdges<T>(s: seq<T>, h: nat, top: nat, len: nat, comp: (T, T) -> bool)
    requires len <= |s| && InSubtree(top, Parent(h)) && 0 < h < len
    requires HoleOrdered(s, h, top, len, comp)
    ensures var p, t := Parent(h), s[h := s[Parent(h)]];
      forall i {:trigger Parent(i)} :: 0 < i < len && InSubtree(top, Parent(i)) && i != p && Parent(i) != p ==> !comp(t[Parent(i)], t[i])
  {
    var p, t := Parent(h), s[h := s[Parent(h)]];
    InSubtreeGe(top, p);
    forall i | 0 < i < len && InSubtree(top, Parent(i)) && i != p && Parent(i) != p
      ensures !comp(t[Parent(i)], t[i])
    {
      if Parent(i) == h {
        assert !comp(s[p], s[i]);
        assert t[Parent(i)] == s[p] && t[i] == s[i];
      } else {
        assert !comp(s[Parent(i)], s[i]);
        assert t[Parent(i)] == s[Parent(i)] && t[i] == s[i];
      }
    }
  }

  /** After the move, the new hole's parent is not ordered before the new hole's children. */
  lemma AscentHoleParent<T(!new)>(s: seq<T>, h: nat, top: nat, len: nat, comp: (T, T) -> bool)
    requires StrictWeakOrder(comp)
    requires len <= |s| && InSubtree(top, Parent(h)) && top < Parent(h) && 0 < h < len
    requires HoleOrdered(s, h, top, len, comp)
    ensures var p, t := Parent(h), s[h := s[Parent(h)]];
      forall i {:trigger Parent(i)} :: 0 < i < len && Parent(i) == p ==> !comp(t[Parent(p)], t[i])
  {
    var p, t := Parent(h), s[h := s[Parent(h)]];
    assert InSubtree(top, Parent(p));
    assert !comp(s[Parent(p)], s[p]);
    forall i | 0 < i < len && Parent(i) == p
      ensures !comp(t[Parent(p)], t[i])
    {
      if i == h {
        assert t[Parent(p)] == s[Parent(p)] && t[i] == s[p];
      } else {
        assert !comp(s[p], s[i]);
        NotBeforeTransitive(comp, s[Parent(p)], s[p], s[i]);
        assert t[Parent(p)] == s[Parent(p)] && t[i] == s[i];
      }
    }
  }

  /** After the move, `value` may still fill the new hole. */
  lemma AscentFits<T(!new)>(s: seq<T>, h: nat, top: nat, len: nat, value: T, comp: (T, T) -> bool)
    requires StrictWeakOrder(comp)
    requires len <= |s| && InSubtree(top, Parent(h)) && Parent(h) < h < len
    requires HoleOrdered(s, h, top, len, comp) && comp(s[Parent(h)], value)
    ensures FitsAbove(s[h := s[Parent(h)]], Parent(h), len, value, comp)
  {
    var p, t := Parent(h), s[h := s[Parent(h)]];
    forall i | 0 < i < len && Parent(i) == p
      ensures !comp(value, t[i])
    {
      if i == h {
        Asymmetric(comp, s[p], value);
        assert t[i] == s[p];
      } else {
        assert !comp(s[p], s[i]);
        BeforeNotBefore(comp, s[p], value, s[i]);
        assert t[i] == s[i];
      }
    }
  }

  /** The last step of push_heap_aux: `value` fills the hole where the upward pass stopped. */
  lemma AscentStop<T(!new)>(s: seq<T>, h: nat, top: nat, len: nat, value: T, comp: (T, T) -> bool)
    requires len <= |s| && h < |s| && top <= h
    requires HoleOrdered(s, h, top, len, comp) && FitsAbove(s, h, len, value, comp)
    requires h == top || !comp(s[Parent(h)], value)
    ensures SubtreeHeap(s[h := value], top, len, comp)
  {
    var t := s[h := value];
    forall i | 0 < i < len && InSubtree(top, Parent(i))
      ensures !comp(t[Parent(i)], t[i])
    {
      if i == h {
        InSubtreeGe(top, Parent(i));
        assert t[Parent(i)] == s[Parent(h)];
      }
    }
  }

  /** One step of the downward pass of adjust_heap: child `c` of the hole, not ordered
      before its sibling (if that sibling is in the range), moves up into the hole. */
  lemma DescentStep<T>(s: seq<T>, h: nat, top: nat, len: nat, c: nat, comp: (T, T) -> bool)
    requires len <= |s| && InSubtree(top, h) && c < len && (c == 2 * h + 1 || c == 2 * h + 2)
    requires HoleOrdered(s, h, top, len, comp)
    requires !comp(s[c], s[2 * h + 1]) && (2 * h + 2 < len ==> !comp(s[c], s[2 * h + 2]))
    ensures HoleOrdered(s[h := s[c]], c, top, len, comp) && InSubtree(top, c)
  {
    assert Parent(c) == h;
    InSubtreeChild(top, h, c);
    DescentEdges(s, h, top, len, c, comp);
  }

  /** A child of a node in a subtree is in the subtree. */
  lemma InSubtreeChild(top: nat, h: nat, c: nat)
    requires InSubtree(top, h) && c > 0 && Parent(c) == h
    ensures InSubtree(top, c)
  {
    InSubtreeGe(top, h);
  }

  /** After the child `c` moves up, the edges that do not touch the new hole are ordered,
      and the hole's new parent `h` is not ordered before the hole's children. */
  lemma DescentEdges<T>(s: seq<T>, h: nat, top: nat, len: nat, c: nat, comp: (T, T) -> bool)
    requires len <= |s| && InSubtree(top, h) && c < len && (c == 2 * h + 1 || c == 2 * h + 2)
    requires HoleOrdered(s, h, top, len, comp)
    requires !comp(s[c], s[2 * h + 1]) && (2 * h + 2 < len ==> !comp(s[c], s[2 * h + 2]))
    ensures HoleOrdered(s[h := s[c]], c, top, len, comp)
  {
    assert Parent(c) == h;
    InSubtreeChild(top, h, c);
    InSubtreeGe(top, h);
    var t := s[h := s[c]];
    forall i | 0 < i < len && InSubtree(top, Parent(i)) && i != c && Parent(i) != c
      ensures !comp(t[Parent(i)], t[i])
    {
      DescentEdge(s, h, top, len, c, comp, i);
    }
    forall i | 0 < i < len && Parent(i) == c
      ensures !comp(t[Parent(c)], t[i])
    {
      assert !comp(s[c], s[i]);
    }
  }

  /** One edge `(Parent(i), i)` after the child `c` moved up into the hole `h`. */
  lemma DescentEdge<T>(s: seq<T>, h: nat, top: nat, len: nat, c: nat, comp: (T, T) -> bool, i: nat)
    requires len <= |s| && InSubtree(top, h) && c < len && (c == 2 * h + 1 || c == 2 * h + 2)
    requires HoleOrdered(s, h, top, len, comp)
    requires !comp(s[c], s[2 * h + 1]) && (2 * h + 2 < len ==> !comp(s[c], s[2 * h + 2]))
    requires 0 < i < len && InSubtree(top, Parent(i)) && i != c && Parent(i) != c
    ensures !comp(s[h := s[c]][Parent(i)], s[h := s[c]][i])
  {
    var t := s[h := s[c]];
    if Parent(i) == h {
      assert i == 2 * h + 1 || i == 2 * h + 2;
      assert t[Parent(i)] == s[c] && t[i] == s[i];
    } else if i == h {
      InSubtreeGe(top, Parent(h));
      assert h > top && Parent(c) == h;
      assert !comp(s[Parent(h)], s[c]);
      assert t[Parent(i)] == s[Parent(h)] && t[i] == s[c];
    } else {
      assert t[Parent(i)] == s[Parent(i)] && t[i] == s[i];
    }
  }

  /** The child adjust_heap picks (the right one unless it is ordered before the left one,
      or the only one) is not ordered before any child of `h`. */
  lemma LargerChild<T(!new)>(s: seq<T>, h: nat, len: nat, c: nat, comp: (T, T) -> bool)
    requires StrictWeakOrder(comp)
    requires len <= |s| && c < len && (c == 2 * h + 1 || c == 2 * h + 2)
    requires c == 2 * h + 1 && 2 * h + 2 < len ==> comp(s[2 * h + 2], s[2 * h + 1])
    requires c == 2 * h + 2 ==> !comp(s[2 * h + 2], s[2 * h + 1])
    ensures !comp(s[c], s[2 * h + 1]) && (2 * h + 2 < len ==> !comp(s[c], s[2 * h + 2]))
  {
    if c == 2 * h + 1 && 2 * h + 2 < len {
      Asymmetric(comp, s[2 * h + 2], s[2 * h + 1]);
    }
  }

  /** Before adjust_heap moves anything, `hole` is a hole above two subtrees that are heaps. */
  lemma HoleAtTop<T>(s: seq<T>, hole: nat, len: nat, comp: (T, T) -> bool)
    requires len <= |s|
    requires forall i {:trigger Parent(i)} :: 0 < i < len && Parent(i) != hole && InSubtree(hole, Parent(i)) ==>
               !comp(s[Parent(i)], s[i])
    ensures HoleOrdered(s, hole, hole, len, comp) && InSubtree(hole, hole)
  {
  }

  /** Every node lies in the subtree of the root, so a heap from the root is a heap. */
  lemma RootSubtreeHeap<T>(s: seq<T>, len: nat, comp: (T, T) -> bool)
    requires len <= |s|
    ensures SubtreeHeap(s, 0, len, comp) <==> IsHeap(s, len, comp)
  {
    forall i | 0 < i < len
      ensures InSubtree(0, Parent(i))
    {
      InSubtreeOfRoot(Parent(i));
    }
  }

  /** A hole without children in `[0, len)` can take any value. */
  lemma LeafFits<T>(s: seq<T>, h: nat, len: nat, value: T, comp: (T, T) -> bool)
    requires len <= |s| && len <= 2 * h + 1
    ensures FitsAbove(s, h, len, value, comp)
  {
  }

  /** The element just placed at the end of a heap is a hole with no children. */
  lemma HoleAtEnd<T>(s: seq<T>, last: nat, comp: (T, T) -> bool)
    requires 0 < last <= |s| && IsHeap(s, last - 1, comp)
    ensures HoleOrdered(s, last - 1, 0, last, comp) && FitsAbove(s, last - 1, last, s[last - 1], comp)
  {
  }

  /** A heap of `last` elements stays a heap of its first `last - 1` when position
      `last - 1` is overwritten. */
  lemma HeapDropLast<T>(s: seq<T>, last: nat, v: T, comp: (T, T) -> bool)
    requires 0 < last <= |s| && IsHeap(s, last, comp)
    ensures HeapFrom(s[last - 1 := v], 1, last - 1, comp)
  {
    var t := s[last - 1 := v];
    forall i | 0 < i < last - 1 && 1 <= Parent(i)
      ensures !comp(t[Parent(i)], t[i])
    {
      assert t[Parent(i)] == s[Parent(i)] && t[i] == s[i];
    }
  }

  /** Nodes below `(len - 2) / 2 + 1`, the first index make_heap leaves alone, have no
      children in `[0, len)`. */
  lemma LeavesAreHeap<T>(s: seq<T>, len: nat, comp: (T, T) -> bool)
    requires 2 <= len <= |s|
    ensures HeapFrom(s, (len - 2) / 2 + 1, len, comp)
  {
  }

  /** No element strictly inside `[0, n)` is ordered after an element of `[n, last)`. */
  ghost predicate PrefixBelow<T>(s: seq<T>, n: nat, last: nat, comp: (T, T) -> bool)
    requires n <= last <= |s|
  {
    forall i, j :: 0 <= i < n <= j < last ==> !comp(s[j], s[i])
  }

  /** One round of sort_heap, on the contents before (`s`) and after (`t`) the pop_heap of
      the first `n` elements: the popped maximum joins the sorted tail. */
  lemma SortStep<T(!new)>(s: seq<T>, t: seq<T>, n: nat, last: nat, comp: (T, T) -> bool)
    requires StrictWeakOrder(comp)
    requires 0 < n <= last <= |s| == |t|
    requires IsHeap(s, n, comp) && SortedRange(s, n, last, comp) && PrefixBelow(s, n, last, comp)
    requires t[n - 1] == s[0] && multiset(t[..n]) == multiset(s[..n]) && t[n..] == s[n..]
    ensures SortedRange(t, n - 1, last, comp) && PrefixBelow(t, n - 1, last, comp)
  {
    forall k | 0 <= k < n
      ensures !comp(s[0], s[..n][k])
    {
      HeapTop(s, n, comp, k);
    }
    NotBeforeAll(s[..n], t[..n], s[0], comp);
    forall j | n <= j < last
      ensures forall i :: 0 <= i < n ==> !comp(t[j], t[..n][i])
    {
      assert t[j] == s[j];
      forall k | 0 <= k < n
        ensures !comp(s[j], s[..n][k])
      {
      }
      NotBeforeAll(s[..n], t[..n], s[j], comp);
    }
    forall i, j | n - 1 <= i < j < last
      ensures !comp(t[j], t[i])
    {
      if i == n - 1 {
        assert t[j] == s[j] && !comp(s[j], s[0]);
      } else {
        assert t[i] == s[i] && t[j] == s[j];
      }
    }
    forall i, j | 0 <= i < n - 1 <= j < last
      ensures !comp(t[j], t[i])
    {
      assert t[i] == t[..n][i];
      if j == n - 1 {
        assert t[j] == s[0];
      }
    }
  }

}
