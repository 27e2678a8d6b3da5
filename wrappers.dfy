/** Failure-compatible result types, in the shape of Rust's `Option` and `Result`. */
module Wrappers {

  datatype Option<+T> = None | Some(value: T)

  datatype Result<+T, +E> = Success(value: T) | Failure(error: E) {
    predicate IsFailure() {
      Failure?
    }

    function PropagateFailure<U>(): Result<U, E>
      requires Failure?
    {
      Failure(error)
    }

    function Extract(): T
      requires Success?
    {
      value
    }
  }
}

/** The application's error enum (src-tauri/src/errors.rs). */
module Errors {

  datatype AppError =
    | Io(message: string)
    | Image(message: string)
    | Config(message: string)

  /** The `Display` text each variant's `#[error]` attribute gives it. */
  function Describe(e: AppError): string {
    match e
    case Io(m) => "IO Error: " + m
    case Image(m) => "Image Processing Error: " + m
    case Config(m) => "Configuration Error: " + m
  }
}
