/** Small shared vocabulary: an optional value and the subsequence relation. */
module Common {

  /** A value that may be absent (a TypeScript optional field, `undefined`). */
  datatype Option<+T> = None | Some(value: T)

  /** `a` is obtained from `b` by deleting some elements, keeping the order of the rest. */
  ghost predicate IsSubsequence<T>(a: seq<T>, b: seq<T>)
    decreases |b|
  {
    a == [] || (b != [] && ((a[0] == b[0] && IsSubsequence(a[1..], b[1..])) || IsSubsequence(a, b[1..])))
  }
}
