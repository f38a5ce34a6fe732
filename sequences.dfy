/** Two small notions on sequences used by several models. */
module Sequences {

  /** No element occurs twice. */
  predicate NoDup<K(==)>(s: seq<K>) {
    forall i, j :: 0 <= i < j < |s| ==> s[i] != s[j]
  }

  /** The set of the elements of `s`. */
  function Members<K>(s: seq<K>): set<K> {
    set x | x in s
  }
}
