/** Sequences used as lists of addresses or indices. */
module Sequences {
  predicate Distinct(l: seq<nat>) {
    forall i, j | 0 <= i < j < |l| :: l[i] != l[j]
  }

  /** The last element, 0 when there is none. */
  function Last(l: seq<nat>): nat {
    if l == [] then 0 else l[|l| - 1]
  }
}
