/** Small shared vocabulary: optional values, results, and how the route
    handlers read a string field of a JSON request body. */
module Basics {

  /** A value that may be absent (JavaScript's `undefined` or `null`). */
  datatype Option<+T> = None | Some(value: T)

  /** Either a value or the error that stood in its way. */
  datatype Result<+R, +E> = Success(value: R) | Failure(error: E)

  /** What `!field` lets through for a string field of a request body:
      the field is present and is not the empty string (the only falsy
      string in JavaScript). */
  predicate Supplied(field: Option<string>) {
    field.Some? && field.value != ""
  }
}
