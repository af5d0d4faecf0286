/** Optional values and the two-kind cast failure used throughout the model. */
module Wrappers {

  /** Swift's `Optional`: `nil` is `None`. */
  datatype Option<+T> = None | Some(value: T)

  /** The two internal failure kinds of a cast (`Field.CastError`). */
  datatype CastError =
    | BadCast          // the value is present but does not parse for the type/format
    | UnavailableCast  // the type/format combination is deliberately not implemented

  /** The outcome of a throwing internal cast: a value, or the error it throws. */
  datatype Result<+T> = Ok(value: T) | Fail(error: CastError)

  function Min(a: int, b: int): int { if a <= b then a else b }

  function Max(a: int, b: int): int { if a <= b then b else a }
}
