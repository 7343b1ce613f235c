/** Failure-carrying result types shared by the rest of the model.
    The source returns a null pointer where a lookup misses (modelled by
    `Option`) and throws an exception where a call cannot proceed
    (modelled by `Result`). */
module Wrappers {

  /** A value that may be missing: the model of a nullable pointer result. */
  datatype Option<+T> = None | Some(value: T)

  /** The outcome of a call that either returns a value or raises an error. */
  datatype Result<+R, +E> = Success(value: R) | Failure(error: E)

  /** Map lookup that answers `None` for a missing key instead of failing. */
  function Lookup<K, V>(m: map<K, V>, k: K): (r: Option<V>)
    ensures r.None? <==> k !in m
    ensures r.Some? ==> k in m && r.value == m[k]
  {
    if k in m then Some(m[k]) else None
  }

  /** The set behind an optional set, with a missing set read as empty. */
  function SetOrEmpty<T>(o: Option<set<T>>): set<T>
  {
    match o
    case Some(s) => s
    case None => {}
  }
}
