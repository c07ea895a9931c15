/** The result shapes shared by the models. */
module Wrappers {
  datatype Option<+T> = None | Some(value: T)

  /** Where the modelled code raises an error, the model returns `Failure`. */
  datatype Result<+T> = Success(value: T) | Failure

  /** What a parser found at the front of a text: a value and the number of
      bytes it takes up, or an error. */
  datatype Parsed<+T> = Found(value: T, len: nat) | Error

  /** The same result for a parser that started `k` bytes earlier. */
  function Shift<T>(k: nat, r: Parsed<T>): Parsed<T> {
    if r.Error? then Error else Found(r.value, k + r.len)
  }
}
