/** Facts about sequences that several parts use. */
module Sequences {

  /** No element occurs twice. */
  ghost predicate Unique<T>(s: seq<T>) {
    forall i, j | 0 <= i < j < |s| :: s[i] != s[j]
  }
}
