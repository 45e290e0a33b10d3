/** Result shapes of the product service.

    The service signals absence in two different ways: a soft `null` (lookup,
    update) and a thrown exception (validation, delete of a missing id).
    Both become constructors of `Outcome` here, so that every call yields a
    value instead of an exception.
 */
module Outcomes {

  /** A value that may be missing: the model of a nullable reference
      returned by a lookup. */
  datatype Option<+T> = None | Some(value: T)

  /** What a service call produces.
      - `Ok(v)`: the call returned `v` (for a call returning no value, `v` is `()`).
      - `Null`: the call returned `null`.
      - `ValidationError(m)`: the call threw a validation exception with message `m`.
      - `NotFound(m)`: the call threw a not-found exception with message `m`. */
  datatype Outcome<+T> =
    | Ok(value: T)
    | Null
    | ValidationError(message: string)
    | NotFound(message: string)
}
