/**
  The older copy of the same utilities in yccstl/utils/utils.h, in the namespace `yccstl`:
  `swap`, `swap_range`, the array `swap` and `pair`.  The code is the same as in
  ccystl/utils/utils.h, and so is the model: cells of arrays stand for references, and a
  `pair` is an object with two fields.  What swap_range does is stated by the same
  `Utils.Exchange`.
 */
module YUtils {
  import opened Order
  import Utils

  // ---------------------------------------------------------------------------------------
  // swap and swap_range

  /** swap(lhs, rhs) for the cells `a[i]` and `b[j]`, which may be the same cell. */
  method Swap<T>(a: array<T>, i: nat, b: array<T>, j: nat)
    requires i < a.Length && j < b.Length
    modifies a, b
    ensures a[i] == old(b[j]) && b[j] == old(a[i])
    ensures forall k :: 0 <= k < a.Length && k != i && (a != b || k != j) ==> a[k] == old(a[k])
    ensures forall k :: 0 <= k < b.Length && k != j && (a != b || k != i) ==> b[k] == old(b[k])
  {
    var tmp := a[i];
    a[i] := b[j];
    b[j] := tmp;
  }

  /** swap_range(first1, last1, first2) over the array `a` (the first range) and a different
      array `b` (the second range): returns the end of the second range. */
  method SwapRange<T>(a: array<T>, first1: nat, last1: nat, b: array<T>, first2: nat) returns (end2: nat)
    requires a != b
    requires first1 <= last1 <= a.Length && first2 + (last1 - first1) <= b.Length
    modifies a, b
    ensures end2 == first2 + (last1 - first1)
    ensures (a[..], b[..]) == Utils.Exchange(old(a[..]), first1, old(b[..]), first2, last1 - first1)
  {
    var i, j := first1, first2;
    while i != last1
      invariant first1 <= i <= last1 && j == first2 + (i - first1)
      invariant a[..] == Utils.Exchange(old(a[..]), first1, old(b[..]), first2, i - first1).0
      invariant b[..] == Utils.Exchange(old(a[..]), first1, old(b[..]), first2, i - first1).1
      decreases last1 - i
    {
      Swap(a, i, b, j);
      i, j := i + 1, j + 1;
    }
    end2 := j;
  }

  /** swap(a, b) for two arrays of the same length `N`: swap_range over the whole arrays,
      one cell at a time.  `a` and `b` may be the same array, in which case every cell is
      swapped with itself and nothing changes. */
  method SwapArrays<T>(a: array<T>, b: array<T>)
    requires a.Length == b.Length
    modifies a, b
    ensures a[..] == old(b[..]) && b[..] == old(a[..])
    ensures a == b ==> a[..] == old(a[..])
  {
    var i := 0;
    while i != a.Length
      invariant 0 <= i <= a.Length
      invariant forall k :: 0 <= k < i ==> a[k] == old(b[k]) && b[k] == old(a[k])
      invariant forall k :: i <= k < a.Length ==> a[k] == old(a[k]) && b[k] == old(b[k])
      decreases a.Length - i
    {
      Swap(a, i, b, i);
      i := i + 1;
    }
  }

  // ---------------------------------------------------------------------------------------
  // pair

  class Pair<A, B> {
    var first: A
    var second: B

    /** pair(a, b), and the converting and moving forms, which store the same values. */
    constructor (a: A, b: B)
      ensures first == a && second == b
    {
      first, second := a, b;
    }

    /** The copy constructor. */
    constructor Copy(rhs: Pair<A, B>)
      ensures first == rhs.first && second == rhs.second
    {
      first, second := rhs.first, rhs.second;
    }

    /** Copy assignment: unless `rhs` is this pair, copy both components. */
    method Assign(rhs: Pair<A, B>)
      modifies this
      ensures first == old(rhs.first) && second == old(rhs.second)
      ensures Equal(this, rhs)
    {
      if this != rhs {
        first := rhs.first;
        second := rhs.second;
      }
    }

    /** pair::swap as it is meant to work: unless `other` is this pair, exchange both
        components. */
    method Swap(other: Pair<A, B>)
      modifies this, other
      ensures first == old(other.first) && second == old(other.second)
      ensures other.first == old(first) && other.second == old(second)
    {
      if this != other {
        first, other.first := other.first, first;
        second, other.second := other.second, second;
      }
    }
  }

  /** make_pair(first, second) for rvalue arguments: a new pair of the two values. */
  method MakePair<A, B>(first: A, second: B) returns (p: Pair<A, B>)
    ensures fresh(p) && p.first == first && p.second == second
  {
    p := new Pair(first, second);
  }

  /** The free swap of two pairs: `lhs.swap(rhs)`. */
  method SwapPairs<A, B>(lhs: Pair<A, B>, rhs: Pair<A, B>)
    modifies lhs, rhs
    ensures lhs.first == old(rhs.first) && lhs.second == old(rhs.second)
    ensures rhs.first == old(lhs.first) && rhs.second == old(lhs.second)
  {
    lhs.Swap(rhs);
  }

  /** operator==: componentwise equality. */
  predicate Equal<A(==), B(==)>(lhs: Pair<A, B>, rhs: Pair<A, B>)
    reads lhs, rhs
  {
    lhs.first == rhs.first && lhs.second == rhs.second
  }

  /** operator!=. */
  predicate NotEqual<A(==), B(==)>(lhs: Pair<A, B>, rhs: Pair<A, B>)
    reads lhs, rhs
  {
    !Equal(lhs, rhs)
  }

  /** operator<: the first components decide, and on equal first components the second. */
  predicate Less<A(==), B>(lhs: Pair<A, B>, rhs: Pair<A, B>, lt1: (A, A) -> bool, lt2: (B, B) -> bool)
    reads lhs, rhs
  {
    lt1(lhs.first, rhs.first) || (lhs.first == rhs.first && lt2(lhs.second, rhs.second))
  }

  /** operator>. */
  predicate Greater<A(==), B>(lhs: Pair<A, B>, rhs: Pair<A, B>, lt1: (A, A) -> bool, lt2: (B, B) -> bool)
    reads lhs, rhs
  {
    Less(rhs, lhs, lt1, lt2)
  }

  /** operator<=. */
  predicate LessEqual<A(==), B>(lhs: Pair<A, B>, rhs: Pair<A, B>, lt1: (A, A) -> bool, lt2: (B, B) -> bool)
    reads lhs, rhs
  {
    !Less(rhs, lhs, lt1, lt2)
  }

  /** operator>=. */
  predicate GreaterEqual<A(==), B>(lhs: Pair<A, B>, rhs: Pair<A, B>, lt1: (A, A) -> bool, lt2: (B, B) -> bool)
    reads lhs, rhs
  {
    !Less(lhs, rhs, lt1, lt2)
  }

  /** `==` is an equivalence and `!=` is exactly its negation. */
  lemma EqualityLaws<A, B>(p: Pair<A, B>, q: Pair<A, B>, r: Pair<A, B>)
    ensures Equal(p, p)
    ensures Equal(p, q) ==> Equal(q, p)
    ensures Equal(p, q) && Equal(q, r) ==> Equal(p, r)
    ensures NotEqual(p, q) <==> p.first != q.first || p.second != q.second
  {
  }

  /** With totally ordered components, `<` on pairs is irreflexive and transitive, and any
      two pairs are either equal or ordered one way. */
  lemma {:induction false} LessIsStrictTotal<A(!new), B(!new)>(
    p: Pair<A, B>, q: Pair<A, B>, r: Pair<A, B>, lt1: (A, A) -> bool, lt2: (B, B) -> bool)
    requires StrictTotalOrder(lt1) && StrictTotalOrder(lt2)
    ensures !Less(p, p, lt1, lt2)
    ensures Less(p, q, lt1, lt2) && Less(q, r, lt1, lt2) ==> Less(p, r, lt1, lt2)
    ensures Less(p, q, lt1, lt2) || Equal(p, q) || Less(q, p, lt1, lt2)
    ensures Less(p, q, lt1, lt2) ==> !Less(q, p, lt1, lt2) && !Equal(p, q)
  {
    if Less(p, q, lt1, lt2) && Less(q, r, lt1, lt2) {
      if lt1(p.first, q.first) && lt1(q.first, r.first) {
        Transitive(lt1, p.first, q.first, r.first);
      } else if lt2(p.second, q.second) && lt2(q.second, r.second) {
        Transitive(lt2, p.second, q.second, r.second);
      }
    }
    Asymmetric(lt1, p.first, q.first);
    Asymmetric(lt2, p.second, q.second);
  }

  /** The derived operators: `>` swaps the operands, `<=` is `<` or `==`, and `>=` is `>`
      or `==`, once the components are totally ordered. */
  lemma DerivedOperators<A(!new), B(!new)>(p: Pair<A, B>, q: Pair<A, B>, lt1: (A, A) -> bool, lt2: (B, B) -> bool)
    requires StrictTotalOrder(lt1) && StrictTotalOrder(lt2)
    ensures Greater(p, q, lt1, lt2) <==> Less(q, p, lt1, lt2)
    ensures LessEqual(p, q, lt1, lt2) <==> Less(p, q, lt1, lt2) || Equal(p, q)
    ensures GreaterEqual(p, q, lt1, lt2) <==> Greater(p, q, lt1, lt2) || Equal(p, q)
    ensures LessEqual(p, q, lt1, lt2) && LessEqual(q, p, lt1, lt2) ==> Equal(p, q)
  {
    LessIsStrictTotal(p, q, p, lt1, lt2);
    LessIsStrictTotal(q, p, q, lt1, lt2);
  }
}
