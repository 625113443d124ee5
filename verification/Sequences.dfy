/** Sequences that stand for sets: the order in which a hash set or a hash map happens to be visited. */
module Sequences {

  predicate Distinct<T(==)>(s: seq<T>) {
    forall i, j :: 0 <= i < j < |s| ==> s[i] != s[j]
  }

  /** The order visits every item once and nothing else. */
  predicate Enumerates<T(==)>(order: seq<T>, items: set<T>) {
    && (forall x :: x in items ==> x in order)
    && (forall i :: 0 <= i < |order| ==> order[i] in items)
    && Distinct(order)
  }
}
