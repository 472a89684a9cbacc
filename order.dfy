/**
  Requirements that the comparator-taking algorithms place on a comparator `comp`,
  read as "comp(x, y): x is ordered before y".
 */
module Order {

  /** The laws a strict weak order obeys on three elements: "ordered before" is transitive,
      and so is "not ordered before". */
  predicate Chain<T>(comp: (T, T) -> bool, x: T, y: T, z: T) {
    && (comp(x, y) && comp(y, z) ==> comp(x, z))
    && (!comp(x, y) && !comp(y, z) ==> !comp(x, z))
  }

  /** A strict weak order: irreflexive, and `Chain` holds for every three elements.  (For an
      irreflexive transitive relation, transitivity of "not ordered before" is the same as
      transitivity of equivalence: see EquivalenceTransitive and FromTextbookAxioms.)  The
      three-element laws are used through the lemmas below, which name their elements. */
  ghost predicate StrictWeakOrder<T(!new)>(comp: (T, T) -> bool) {
    && (forall x :: !comp(x, x))
    && (forall x, y, z {:trigger Chain(comp, x, y, z)} :: Chain(comp, x, y, z))
  }

  /** A strict weak order in which equivalent elements are equal, such as `<` on integers. */
  ghost predicate StrictTotalOrder<T(!new)>(comp: (T, T) -> bool) {
    && StrictWeakOrder(comp)
    && (forall x, y :: x != y ==> comp(x, y) || comp(y, x))
  }

  /** Neither is ordered before the other. */
  predicate Equivalent<T>(comp: (T, T) -> bool, x: T, y: T) {
    !comp(x, y) && !comp(y, x)
  }

  lemma Transitive<T(!new)>(comp: (T, T) -> bool, x: T, y: T, z: T)
    requires StrictWeakOrder(comp)
    requires comp(x, y) && comp(y, z)
    ensures comp(x, z)
  {
    assert Chain(comp, x, y, z);
  }

  lemma NotBeforeTransitive<T(!new)>(comp: (T, T) -> bool, x: T, y: T, z: T)
    requires StrictWeakOrder(comp)
    requires !comp(x, y) && !comp(y, z)
    ensures !comp(x, z)
  {
    assert Chain(comp, x, y, z);
  }

  lemma Asymmetric<T(!new)>(comp: (T, T) -> bool, x: T, y: T)
    requires StrictWeakOrder(comp)
    ensures comp(x, y) ==> !comp(y, x)
  {
    assert Chain(comp, x, y, x);
  }

  /** If `x` is ordered before `y` but not before `z`, then `y` is not ordered before `z`. */
  lemma BeforeNotBefore<T(!new)>(comp: (T, T) -> bool, x: T, y: T, z: T)
    requires StrictWeakOrder(comp)
    requires comp(x, y) && !comp(x, z)
    ensures !comp(y, z)
  {
    assert Chain(comp, x, y, z);
  }

  /** If `y` is ordered before `z` and `x` is not, then `x` is not ordered before `y`. */
  lemma NotBeforeLeft<T(!new)>(comp: (T, T) -> bool, x: T, y: T, z: T)
    requires StrictWeakOrder(comp)
    requires comp(y, z) && !comp(x, z)
    ensures !comp(x, y)
  {
    assert Chain(comp, x, y, z);
  }

  /** If `x` is ordered before `z` and `y` is not ordered before `z`, then `x` is ordered
      before `y`. */
  lemma BeforeAbove<T(!new)>(comp: (T, T) -> bool, x: T, y: T, z: T)
    requires StrictWeakOrder(comp)
    requires comp(x, z) && !comp(y, z)
    ensures comp(x, y)
  {
    assert Chain(comp, x, y, z);
  }

  /** `s` is sorted: no element is ordered before an earlier one. */
  ghost predicate Sorted<T>(s: seq<T>, comp: (T, T) -> bool) {
    forall i, j :: 0 <= i < j < |s| ==> !comp(s[j], s[i])
  }

  /** No element of `s` is ordered before `x`. */
  ghost predicate NotBelow<T>(s: seq<T>, x: T, comp: (T, T) -> bool) {
    forall k :: 0 <= k < |s| ==> !comp(s[k], x)
  }

  /** Equivalence ("neither is ordered before the other") is transitive. */
  lemma EquivalenceTransitive<T(!new)>(comp: (T, T) -> bool, x: T, y: T, z: T)
    requires StrictWeakOrder(comp)
    requires Equivalent(comp, x, y) && Equivalent(comp, y, z)
    ensures Equivalent(comp, x, z)
  {
    assert Chain(comp, x, y, z) && Chain(comp, z, y, x);
  }

  /** The usual textbook axioms (irreflexive, transitive, equivalence transitive) give a
      strict weak order. */
  lemma FromTextbookAxioms<T(!new)>(comp: (T, T) -> bool)
    requires forall x :: !comp(x, x)
    requires forall x, y, z :: comp(x, y) && comp(y, z) ==> comp(x, z)
    requires forall x, y, z :: Equivalent(comp, x, y) && Equivalent(comp, y, z) ==> Equivalent(comp, x, z)
    ensures StrictWeakOrder(comp)
  {
    forall x, y, z
      ensures Chain(comp, x, y, z)
    {
      if !comp(x, y) && !comp(y, z) {
        if comp(y, x) {
          assert comp(x, z) ==> comp(y, z);
        } else if comp(z, y) {
          assert comp(x, z) ==> comp(x, y);
        } else {
          assert Equivalent(comp, x, y) && Equivalent(comp, y, z);
        }
      }
    }
  }
}
