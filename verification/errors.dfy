/** Go's error conventions as plain values: an optional error, the `(value, error)` pair
    that Go functions return, and the wrapping done by `fmt.Errorf("...%w", err)` together
    with the `errors.Is` test that looks through it. */
module Errors {

  datatype Option<+T> = None | Some(value: T)

  /** The error values this model distinguishes. `ErrInvalid` is the package's sentinel
      for an invalid argument; `Wrapped` is an error produced by `fmt.Errorf` with a `%w`
      verb. */
  datatype Error =
    | ErrInvalid
    | Wrapped(context: string, cause: Error)

  /** A Go call result `(T, error)`: both halves are always present, `err` is `None`
      exactly when Go returns a nil error. */
  datatype Returns<+T> = Returns(value: T, err: Option<Error>)

  /** `errors.Is(e, target)`: `e` is `target` or wraps it, at any depth. */
  predicate Is(e: Error, target: Error)
  {
    e == target || (e.Wrapped? && Is(e.cause, target))
  }

}
