/** Failure-carrying results: the model's stand-in for the C++ exceptions and
    boolean failure returns of the string utilities. */
module Wrappers {

  datatype Option<+T> = None | Some(value: T)

  datatype Result<+T, +E> = Ok(value: T) | Err(error: E)

  /** What a routine that appends to a caller's buffer reports: it finished,
      or it stopped with an error (a thrown `std::invalid_argument`). */
  datatype Outcome<+E> = Pass | Fail(error: E)

  /** Puts `prefix` in front of a successful decoding; an error stays as it is. */
  function Prepend<U, E>(prefix: seq<U>, r: Result<seq<U>, E>): (p: Result<seq<U>, E>)
  {
    match r
    case Ok(v) => Ok(prefix + v)
    case Err(e) => Err(e)
  }

  lemma PrependPrepend<U, E>(a: seq<U>, b: seq<U>, r: Result<seq<U>, E>)
    ensures Prepend(a, Prepend(b, r)) == Prepend(a + b, r)
  {
    if r.Ok? {
      assert a + (b + r.value) == (a + b) + r.value;
    }
  }

}
