/** Failure-carrying values shared by the other modules. */
module Wrappers {

  /** A value that may be absent: a Go nil pointer or a failed parse. */
  datatype Option<+T> = None | Some(value: T)

  /** Either a value or an error, for functions that return (value, error) in Go
      and whose value is meaningless when the error is set. */
  datatype Result<+T, +E> = Ok(value: T) | Err(error: E)

  /** Concatenation is associative; stated on its own so that callers with
      large contexts need not rediscover it. */
  lemma AppendAssociative<T>(a: seq<T>, b: seq<T>, c: seq<T>)
    ensures (a + b) + c == a + (b + c)
  {
  }
}
