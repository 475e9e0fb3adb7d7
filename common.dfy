/** Shapes shared by the resolvers: the nullable wrapper and the field error. */
module Common {

  /** `None` plays JavaScript's `null` / `undefined`. */
  datatype Option<+T> = None | Some(value: T)

  /** A user-facing error tied to one input field (class FieldError in the user resolver). */
  datatype FieldError = FieldError(field: string, message: string)

  function Min(a: int, b: int): int
  {
    if a < b then a else b
  }

  function Max(a: int, b: int): int
  {
    if a < b then b else a
  }
}
