/**
  The adapter class `priority_queue` of ccystl/adapter/priority_queue.h.

  The underlying container `c_` is a vector: here an array `c` whose first `len` cells are
  the vector's elements (its capacity is `c.Length`), and `comp` is the comparator `comp_`.
  The queue keeps `c[..len]` a heap with respect to `comp` by running the heap algorithms
  on it.
 */
module PriorityQueues {
  import opened Order
  import opened Heap
  import opened HeapAlgo

  /** A fresh buffer holding `s` rearranged by make_heap, as every constructor that fills
      `c_` builds it. */
  method BuildHeap<T(!new)>(s: seq<T>, comp: (T, T) -> bool) returns (buf: array<T>)
    requires StrictWeakOrder(comp)
    ensures fresh(buf) && buf[..] == MakeHeapSpec(s, |s|, comp)
  {
    buf := new T[|s|](i requires 0 <= i < |s| => s[i]);
    assert buf[..] == s;
    MakeHeap(buf, |s|, comp);
  }

  /** What make_heap leaves in a buffer that holds exactly `s`: a heap of the elements of `s`. */
  lemma BuiltHeap<T(!new)>(s: seq<T>, comp: (T, T) -> bool)
    requires StrictWeakOrder(comp)
    ensures |MakeHeapSpec(s, |s|, comp)| == |s|
    ensures IsHeap(MakeHeapSpec(s, |s|, comp), |s|, comp)
    ensures multiset(MakeHeapSpec(s, |s|, comp)) == multiset(s)
  {
    MakeHeapCorrect(s, |s|, comp);
  }

  class PriorityQueue<T(!new)> {
    var c: array<T>
    var len: nat
    var comp: (T, T) -> bool

    /** The elements of the queue, in the order the vector holds them. */
    ghost function Contents(): seq<T>
      reads this, c
      requires len <= c.Length
    {
      c[..len]
    }

    /** The class invariant: the vector fits its buffer, the comparator is a strict weak
        order and the vector is a heap. */
    ghost predicate Valid()
      reads this, c
    {
      && len <= c.Length
      && StrictWeakOrder(comp)
      && IsHeap(Contents(), len, comp)
    }

    /** `priority_queue()` and `priority_queue(const Compare&)`: an empty queue. */
    constructor Empty(comp: (T, T) -> bool)
      requires StrictWeakOrder(comp)
      ensures Valid() && fresh(c) && Contents() == [] && this.comp == comp
    {
      c := new T[0];
      len := 0;
      this.comp := comp;
    }

    /** The constructors that fill `c_` (from `n` equal elements, a range, an initializer
        list or a container) and then run make_heap over it. */
    constructor FromSeq(s: seq<T>, comp: (T, T) -> bool)
      requires StrictWeakOrder(comp)
      ensures Valid() && fresh(c) && this.comp == comp
      ensures Contents() == MakeHeapSpec(s, |s|, comp)
      ensures multiset(Contents()) == multiset(s)
    {
      var buf := BuildHeap(s, comp);
      BuiltHeap(s, comp);
      c := buf;
      len := |s|;
      this.comp := comp;
      new;
      assert Contents() == buf[..];
    }

    /** The copy constructor: a copy of `rhs`'s vector and comparator, then make_heap. */
    constructor Copy(rhs: PriorityQueue<T>)
      requires rhs.Valid()
      ensures Valid() && fresh(c) && comp == rhs.comp
      ensures Contents() == MakeHeapSpec(rhs.Contents(), rhs.len, rhs.comp)
      ensures multiset(Contents()) == multiset(rhs.Contents())
    {
      var s := rhs.c[..rhs.len];
      var buf := BuildHeap(s, rhs.comp);
      BuiltHeap(s, rhs.comp);
      c := buf;
      len := rhs.len;
      comp := rhs.comp;
      new;
      assert Contents() == buf[..];
    }

    /** Copy assignment: `c_` and `comp_` become copies of `rhs`'s, then make_heap. */
    method Assign(rhs: PriorityQueue<T>)
      requires rhs.Valid()
      modifies this
      ensures Valid() && fresh(c) && comp == old(rhs.comp)
      ensures Contents() == MakeHeapSpec(old(rhs.Contents()), old(rhs.len), comp)
      ensures multiset(Contents()) == multiset(old(rhs.Contents()))
    {
      var s := rhs.c[..rhs.len];
      var buf := BuildHeap(s, rhs.comp);
      BuiltHeap(s, rhs.comp);
      c, len, comp := buf, |s|, rhs.comp;
      assert Contents() == buf[..];
    }

    /** Assignment from an initializer list: the elements of `s` with the comparator
        `comp` (a default-constructed `value_compare`), then make_heap. */
    method AssignSeq(s: seq<T>, comp: (T, T) -> bool)
      requires StrictWeakOrder(comp)
      modifies this
      ensures Valid() && fresh(c) && this.comp == comp
      ensures Contents() == MakeHeapSpec(s, |s|, comp)
      ensures multiset(Contents()) == multiset(s)
    {
      var buf := BuildHeap(s, comp);
      BuiltHeap(s, comp);
      c, len, this.comp := buf, |s|, comp;
      assert Contents() == buf[..];
    }

    /** `top()`: the front of the vector, which no element of the queue is ordered after. */
    function Top(): (t: T)
      reads this, c
      requires Valid() && len > 0
      ensures forall i :: 0 <= i < len ==> !comp(t, Contents()[i])
      ensures t in multiset(Contents())
    {
      HeapTopAll(Contents(), len, comp);
      c[0]
    }

    /** `empty()`. */
    function IsEmpty(): (r: bool)
      reads this, c
      requires len <= c.Length
      ensures r <==> Contents() == []
    {
      len == 0
    }

    /** `size()`. */
    function Size(): (n: nat)
      reads this, c
      requires len <= c.Length
      ensures n == |Contents()| == |multiset(Contents())|
    {
      len
    }

    /** The reallocation of push_back on a full vector: the elements move to a larger
        buffer whose unused cells hold `filler`. */
    method Grow(filler: T)
      requires Valid()
      modifies this
      ensures Valid() && fresh(c) && len < c.Length
      ensures len == old(len) && comp == old(comp) && Contents() == old(Contents())
    {
      var grown := new T[2 * c.Length + 1](_ => filler);
      forall i | 0 <= i < len {
        grown[i] := c[i];
      }
      assert grown[..len] == c[..len];
      c := grown;
    }

    /** `push` and `emplace`: push_back of `x` (into a larger buffer when the vector is
        full), then push_heap over the whole vector. */
    method Push(x: T)
      requires Valid()
      modifies this, c
      ensures Valid() && comp == old(comp) && (c == old(c) || fresh(c))
      ensures Contents() == PushHeapSpec(old(Contents()) + [x], old(len) + 1, comp)
      ensures len == old(len) + 1
      ensures multiset(Contents()) == multiset(old(Contents())) + multiset{x}
    {
      if len == c.Length {
        Grow(x);
      }
      PushWithin(x);
    }

    /** push_back of `x` into a vector with room for it, then push_heap. */
    method PushWithin(x: T)
      requires Valid() && len < c.Length
      modifies this, c
      ensures Valid() && comp == old(comp) && c == old(c)
      ensures Contents() == PushHeapSpec(old(Contents()) + [x], old(len) + 1, comp)
      ensures len == old(len) + 1
      ensures multiset(Contents()) == multiset(old(Contents())) + multiset{x}
    {
      ghost var before := Contents();
      c[len] := x;
      len := len + 1;
      ghost var s := c[..];
      ghost var t := before + [x];
      assert s[..len] == t;
      assert s[..len - 1] == before;
      HeapOfPrefix(s, len - 1, comp);
      PushHeap(c, len, comp);
      PushHeapPrefix(s, len, comp, len);
      PushHeapCorrect(t, len, comp);
      assert t[..len - 1] == before;
    }

    /** `pop`: pop_heap over the whole vector, then pop_back; exactly one occurrence of the
        top element leaves the queue. */
    method Pop()
      requires Valid() && len > 0
      modifies this, c
      ensures Valid() && comp == old(comp) && c == old(c)
      ensures Contents() == PopHeapSpec(old(Contents()), old(len), comp)[..old(len) - 1]
      ensures len == old(len) - 1
      ensures multiset(Contents()) == multiset(old(Contents())) - multiset{old(Top())}
    {
      ghost var before := Contents();
      ghost var s := c[..];
      assert s[..len] == before;
      HeapOfPrefix(s, len, comp);
      PopHeap(c, len, comp);
      PopHeapPrefix(s, len, comp, len);
      PopHeapCorrect(before, len, comp);
      ghost var r := PopHeapSpec(before, len, comp);
      assert c[..len] == r;
      len := len - 1;
      assert r == Contents() + [before[0]];
      HeapOfPrefix(r, len, comp);
    }

    /** `clear`: pop while the queue is not empty. */
    method Clear()
      requires Valid()
      modifies this, c
      ensures Valid() && comp == old(comp) && c == old(c)
      ensures Contents() == [] && IsEmpty()
    {
      while len > 0
        invariant Valid() && comp == old(comp) && c == old(c)
        decreases len
      {
        Pop();
      }
    }

    /** `swap`: the two queues exchange their vectors and comparators. */
    method Swap(other: PriorityQueue<T>)
      requires Valid() && other.Valid()
      modifies this, other
      ensures c == old(other.c) && len == old(other.len) && comp == old(other.comp)
      ensures other.c == old(c) && other.len == old(len) && other.comp == old(comp)
      ensures Contents() == old(other.Contents()) && other.Contents() == old(Contents())
      ensures Valid() && other.Valid()
    {
      c, other.c := other.c, c;
      len, other.len := other.len, len;
      comp, other.comp := other.comp, comp;
    }
  }

  /** The friend `operator==`: the two vectors are equal. */
  function Equal<T(==, !new)>(lhs: PriorityQueue<T>, rhs: PriorityQueue<T>): (r: bool)
    reads lhs, lhs.c, rhs, rhs.c
    requires lhs.len <= lhs.c.Length && rhs.len <= rhs.c.Length
    ensures r <==> lhs.len == rhs.len && forall i :: 0 <= i < lhs.len ==> lhs.c[i] == rhs.c[i]
  {
    lhs.c[..lhs.len] == rhs.c[..rhs.len]
  }

  /** The friend `operator!=`: the two vectors differ. */
  function NotEqual<T(==, !new)>(lhs: PriorityQueue<T>, rhs: PriorityQueue<T>): (r: bool)
    reads lhs, lhs.c, rhs, rhs.c
    requires lhs.len <= lhs.c.Length && rhs.len <= rhs.c.Length
    ensures r <==> lhs.len != rhs.len || exists i :: 0 <= i < lhs.len && lhs.c[i] != rhs.c[i]
  {
    lhs.c[..lhs.len] != rhs.c[..rhs.len]
  }

  /** The free `swap`: `lhs.swap(rhs)`. */
  method SwapQueues<T(!new)>(lhs: PriorityQueue<T>, rhs: PriorityQueue<T>)
    requires lhs.Valid() && rhs.Valid()
    modifies lhs, rhs
    ensures lhs.Valid() && rhs.Valid()
    ensures lhs.Contents() == old(rhs.Contents()) && rhs.Contents() == old(lhs.Contents())
    ensures lhs.comp == old(rhs.comp) && rhs.comp == old(lhs.comp)
  {
    lhs.Swap(rhs);
  }
}
