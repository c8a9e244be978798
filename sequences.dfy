/** Facts about sequences shared by the loop forest and the loop statistics. */
module Sequences {

  /** No element of s occurs twice, as in the std::set the source keeps. */
  predicate Distinct<T(==)>(s: seq<T>)
  {
    forall i, j :: 0 <= i < j < |s| ==> s[i] != s[j]
  }
}
