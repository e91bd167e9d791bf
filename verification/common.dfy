/** Shared vocabulary: optional values, results with an error side, and the
    orderings that std::upper_bound and std::lower_bound rely on. */
module Common {

  /** A value that may be absent (a null pointer, a missing map key). */
  datatype Option<T> = None | Some(value: T)

  /** A computation that either returns a value or raises an error. */
  datatype Result<T, E> = Ok(value: T) | Err(error: E)

  /** Ascending order, duplicates allowed. */
  predicate Sorted(s: seq<int>) {
    forall i, j :: 0 <= i <= j < |s| ==> s[i] <= s[j]
  }

  /** Strictly ascending order. */
  predicate StrictlyIncreasing(s: seq<int>) {
    forall i, j :: 0 <= i < j < |s| ==> s[i] < s[j]
  }

  /** The last element of a non-empty sequence. */
  function Last<T>(s: seq<T>): T
    requires |s| > 0
  {
    s[|s| - 1]
  }
}
