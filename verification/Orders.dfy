/** Comparison functions that say whether one element is below another. */
module Orders {
  /** Neither is below the other. */
  predicate Same<E>(less: (E, E) -> bool, x: E, y: E) {
    !less(x, y) && !less(y, x)
  }

  /** `less` is a strict weak order on the elements of S: asymmetric, and "not
      greater" is transitive. */
  ghost predicate StrictWeakOrder<E>(less: (E, E) -> bool, S: set<E>) {
    && (forall x, y :: x in S && y in S && less(x, y) ==> !less(y, x))
    && (forall x, y, z :: x in S && y in S && z in S && !less(y, x) && !less(z, y) ==> !less(z, x))
  }
}
