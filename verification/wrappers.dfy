/** The wrappers used by the whole model.
    `Option` stands for `java.util.Optional` (and for a nullable reference),
    `Result` for a value-or-exception outcome. */
module Wrappers {

  datatype Option<+T> = None | Some(value: T)

  datatype Result<+T, +E> = Success(value: T) | Failure(error: E)
}
