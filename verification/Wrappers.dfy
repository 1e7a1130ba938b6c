/** Values, errors, lookups and distinctness, shared by the modules of the project. */
module Wrappers {
  datatype Option<+T> = None | Some(value: T)

  /** The exceptions the code throws. */
  datatype Error =
    | AssertionFailed
    | OutOfRange
    | DuplicateKey
    | NotFound
    | NullReference
    | InvalidCast
    | DivideByZero
    | IndexOutOfRange

  datatype Result<+T> = Ok(value: T) | Err(error: Error)

  function Lookup<K, V>(m: map<K, V>, k: K): Option<V> {
    if k in m then Some(m[k]) else None
  }

  ghost predicate Distinct<T>(s: seq<T>) {
    forall i, j :: 0 <= i < j < |s| ==> s[i] != s[j]
  }
}
