/** Failure-carrying wrappers shared by every module of the model. */
module Common {

  datatype Option<+T> = None | Some(value: T)

  /** The outcome of an operation that may throw: the value, or the thrown message. */
  datatype Result<+T> = Ok(value: T) | Err(message: string)

  /** Sequences without repeated elements. */
  ghost predicate NoDup<T>(s: seq<T>) {
    forall i, j :: 0 <= i < j < |s| ==> s[i] != s[j]
  }

  /** The set of elements of a sequence. */
  function Elems<T>(s: seq<T>): set<T> {
    set x | x in s
  }
}
