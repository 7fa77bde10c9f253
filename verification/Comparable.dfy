/** What the sorting and queue templates ask of their comparator. */
module Comparable {

  /** cmp is a strict weak ordering; "x is at most y" is !cmp(y, x). */
  ghost predicate StrictWeak<T(!new)>(cmp: (T, T) -> bool) {
    && (forall x, y :: cmp(x, y) ==> !cmp(y, x))
    && (forall x, y, z :: !cmp(y, x) && !cmp(z, y) ==> !cmp(z, x))
  }
}
