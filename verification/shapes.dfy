/** Value shapes shared by the profile-update pipeline: the JavaScript
    argument shape the guards test, and the option and result wrappers. */
module Shapes {

  /** An argument that the pipeline guards with `!x || !Array.isArray(x)`.
      `NotAnArray` stands for every value that fails that guard (null,
      undefined, a string, a plain object, ...); `JsArray` carries the
      elements of a real array, in order. */
  datatype Input<T> = NotAnArray | JsArray(elems: seq<T>)

  /** An optional configuration entry: absent (or falsy) versus present. */
  datatype Option<T> = None | Some(value: T)

  /** The outcome of a pipeline stage that may throw. */
  datatype Result<T> = Success(value: T) | Failure(reason: string)
}
