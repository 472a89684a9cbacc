/**
  distance, advance and reverse_iterator of ccystl/iterator/iterator.h.

  An iterator is modelled by its position, an integer index into the range it walks; `++`
  adds one and `--` subtracts one.  The iterator category, which the library reads from the
  iterator's type to pick an overload, is the parameter `cat`.  A reverse_iterator is an
  object holding the position `current` of the forward iterator it wraps.
 */
module Iterators {

  /** The iterator categories; a forward iterator is served by the input-iterator overloads. */
  datatype Category = Input | Forward | Bidirectional | RandomAccess

  // ---------------------------------------------------------------------------------------
  // distance

  /** distance_dispatch for input iterators: steps `first` up to `last`, counting the steps.
      `last` must be reachable from `first`. */
  method DistanceStepping(first: int, last: int) returns (n: int)
    requires first <= last
    ensures first + n == last && n == DistanceRandom(first, last) && n >= 0
  {
    var it := first;
    n := 0;
    while it != last
      invariant first <= it <= last && n == it - first
      decreases last - it
    {
      it := it + 1;
      n := n + 1;
    }
  }

  /** distance_dispatch for random-access iterators: `last - first`. */
  function DistanceRandom(first: int, last: int): (n: int)
  {
    last - first
  }

  /** distance(first, last), dispatched on the category: every category gives `last - first`;
      the stepping overloads need `last` reachable from `first`. */
  method Distance(cat: Category, first: int, last: int) returns (n: int)
    requires cat == RandomAccess || first <= last
    ensures first + n == last
  {
    if cat == RandomAccess {
      n := DistanceRandom(first, last);
    } else {
      n := DistanceStepping(first, last);
    }
  }

  // ---------------------------------------------------------------------------------------
  // advance

  /** advance_dispatch for input iterators, `while (n--) ++i`: `n` must not be negative. */
  method AdvanceInput(i: int, n: int) returns (j: int)
    requires n >= 0
    ensures j == AdvanceRandom(i, n) && j >= i
  {
    j := i;
    var left := n;
    while left != 0
      invariant 0 <= left <= n && j == i + (n - left)
      decreases left
    {
      left := left - 1;
      j := j + 1;
    }
  }

  /** advance_dispatch for bidirectional iterators: forward `n` steps, or back `-n` steps
      when `n` is negative. */
  method AdvanceBidirectional(i: int, n: int) returns (j: int)
    ensures j == AdvanceRandom(i, n)
    ensures n >= 0 ==> j >= i
    ensures n < 0 ==> j < i
  {
    j := i;
    var left := n;
    if n >= 0 {
      while left != 0
        invariant 0 <= left <= n && j == i + (n - left)
        decreases left
      {
        left := left - 1;
        j := j + 1;
      }
    } else {
      while left != 0
        invariant n <= left <= 0 && j == i + (n - left)
        decreases -left
      {
        left := left + 1;
        j := j - 1;
      }
    }
  }

  /** advance_dispatch for random-access iterators: `i += n`. */
  function AdvanceRandom(i: int, n: int): (j: int)
  {
    i + n
  }

  /** advance(i, n), dispatched on the category: every category moves `i` by `n`; the
      input-iterator overload needs `n >= 0`. */
  method Advance(cat: Category, i: int, n: int) returns (j: int)
    requires cat == Bidirectional || cat == RandomAccess || n >= 0
    ensures j == i + n
  {
    match cat
    case Input => j := AdvanceInput(i, n);
    case Forward => j := AdvanceInput(i, n);
    case Bidirectional => j := AdvanceBidirectional(i, n);
    case RandomAccess => j := AdvanceRandom(i, n);
  }

  /** Advancing by the distance reaches `last`, and the distance to `advance(i, n)` is `n`. */
  lemma AdvanceDistanceRoundTrip(first: int, last: int, i: int, n: int)
    ensures AdvanceRandom(first, DistanceRandom(first, last)) == last
    ensures DistanceRandom(i, AdvanceRandom(i, n)) == n
  {
  }

  // ---------------------------------------------------------------------------------------
  // reverse_iterator

  class ReverseIterator {
    var current: int

    /** reverse_iterator(i). */
    constructor (i: int)
      ensures current == i
    {
      current := i;
    }

    /** The copy constructor. */
    constructor Copy(rhs: ReverseIterator)
      ensures current == rhs.current
    {
      current := rhs.current;
    }

    /** base(): the wrapped forward iterator. */
    function Base(): (r: int)
      reads this
    {
      current
    }

    /** operator*: the element just before the wrapped position, in the range `s`. */
    function Deref<T>(s: seq<T>): (x: T)
      reads this
      requires 0 < current <= |s|
    {
      s[current - 1]
    }

    /** Prefix operator++: moves the wrapped iterator back one place. */
    method Increment()
      modifies this
      ensures current == old(current) - 1
    {
      current := current - 1;
    }

    /** Postfix operator++: returns a copy taken before the move. */
    method PostIncrement() returns (tmp: ReverseIterator)
      modifies this
      ensures fresh(tmp) && tmp.current == old(current) && current == old(current) - 1
    {
      tmp := new ReverseIterator.Copy(this);
      current := current - 1;
    }

    /** Prefix operator--: moves the wrapped iterator forward one place. */
    method Decrement()
      modifies this
      ensures current == old(current) + 1
    {
      current := current + 1;
    }

    /** Postfix operator--: returns a copy taken before the move. */
    method PostDecrement() returns (tmp: ReverseIterator)
      modifies this
      ensures fresh(tmp) && tmp.current == old(current) && current == old(current) + 1
    {
      tmp := new ReverseIterator.Copy(this);
      current := current + 1;
    }

    /** operator+=(n): the wrapped iterator moves back `n` places. */
    method AddAssign(n: int)
      modifies this
      ensures current == old(current) - n
    {
      current := current - n;
    }

    /** operator-=(n): the wrapped iterator moves forward `n` places. */
    method SubAssign(n: int)
      modifies this
      ensures current == old(current) + n
    {
      current := current + n;
    }

    /** operator+(n): a new reverse iterator `n` places further along, which lies `n` past
        this one as measured by operator- and ordered after it exactly when `n > 0`. */
    method Plus(n: int) returns (r: ReverseIterator)
      ensures fresh(r) && r.Base() == Base() - n
      ensures Difference(r, this) == n
      ensures Less(this, r) <==> n > 0
    {
      r := new ReverseIterator(current - n);
    }

    /** operator-(n): a new reverse iterator `n` places back. */
    method Minus(n: int) returns (r: ReverseIterator)
      ensures fresh(r) && r.Base() == Base() + n
      ensures Difference(this, r) == n
      ensures Less(r, this) <==> n > 0
    {
      r := new ReverseIterator(current + n);
    }

    /** operator[](n), `*(*this + n)`: the element at `base() - n - 1`, which for `n == 0` is
        what operator* yields. */
    method Index<T>(s: seq<T>, n: int) returns (x: T)
      requires 0 < current - n <= |s|
      ensures x == s[Base() - n - 1]
      ensures n == 0 ==> x == Deref(s)
    {
      var r := Plus(n);
      x := r.Deref(s);
    }
  }

  /** operator-(lhs, rhs): `rhs.base() - lhs.base()`. */
  function Difference(lhs: ReverseIterator, rhs: ReverseIterator): (d: int)
    reads lhs, rhs
  {
    rhs.Base() - lhs.Base()
  }

  /** operator==: the bases are equal. */
  predicate Equal(lhs: ReverseIterator, rhs: ReverseIterator)
    reads lhs, rhs
  {
    lhs.Base() == rhs.Base()
  }

  /** operator<: the order of the bases is reversed. */
  predicate Less(lhs: ReverseIterator, rhs: ReverseIterator)
    reads lhs, rhs
  {
    rhs.Base() < lhs.Base()
  }

  /** operator!=. */
  predicate NotEqual(lhs: ReverseIterator, rhs: ReverseIterator)
    reads lhs, rhs
  {
    !Equal(lhs, rhs)
  }

  /** operator>. */
  predicate Greater(lhs: ReverseIterator, rhs: ReverseIterator)
    reads lhs, rhs
  {
    Less(rhs, lhs)
  }

  /** operator<=. */
  predicate LessEqual(lhs: ReverseIterator, rhs: ReverseIterator)
    reads lhs, rhs
  {
    !Less(rhs, lhs)
  }

  /** operator>=. */
  predicate GreaterEqual(lhs: ReverseIterator, rhs: ReverseIterator)
    reads lhs, rhs
  {
    !Less(lhs, rhs)
  }

  /** The comparisons agree with the difference, as for random-access iterators: `lhs < rhs`
      exactly when `lhs - rhs` is negative, and `lhs == rhs` exactly when it is zero. */
  lemma ComparisonsFollowDifference(lhs: ReverseIterator, rhs: ReverseIterator)
    ensures Less(lhs, rhs) <==> Difference(lhs, rhs) < 0
    ensures Equal(lhs, rhs) <==> Difference(lhs, rhs) == 0
    ensures Difference(lhs, rhs) == -Difference(rhs, lhs)
  {
  }

  /** `<` is a strict total order on the bases, and the derived operators are the usual ones:
      `>` swaps the operands, `<=` is `<` or `==`, `>=` is `>` or `==`. */
  lemma ComparisonsAreTotalOrder(p: ReverseIterator, q: ReverseIterator, r: ReverseIterator)
    ensures !Less(p, p)
    ensures Less(p, q) && Less(q, r) ==> Less(p, r)
    ensures Less(p, q) || Equal(p, q) || Less(q, p)
    ensures Less(p, q) ==> !Less(q, p) && NotEqual(p, q)
    ensures Greater(p, q) <==> Less(q, p)
    ensures LessEqual(p, q) <==> Less(p, q) || Equal(p, q)
    ensures GreaterEqual(p, q) <==> Greater(p, q) || Equal(p, q)
    ensures LessEqual(p, q) && LessEqual(q, p) ==> Equal(p, q)
  {
  }
}
