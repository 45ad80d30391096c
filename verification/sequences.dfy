/** Relations between sequences shared by the filters of the model. */
module Sequences {

  /** `t` can be obtained from `s` by deleting elements: the elements of `t`
      occur in `s` in the same order. */
  predicate IsSubsequence<T(==)>(t: seq<T>, s: seq<T>) {
    t == [] || (s != [] && ((t[0] == s[0] && IsSubsequence(t[1..], s[1..])) || IsSubsequence(t, s[1..])))
  }
}
