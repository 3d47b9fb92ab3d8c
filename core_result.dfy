/** The outcome type shared by every layer of the app (core.utils.Result) and
    Kotlin's nullable values. Only the shape the login flow relies on is
    modelled: a result is either a success carrying data or an error carrying
    an exception, and an exception has an optional message. */
module CoreResult {

  /** A Kotlin value of type `T?`: `None` stands for `null`. */
  datatype Option<+T> = None | Some(value: T)

  /** A thrown-and-caught exception; Kotlin's `Throwable.message` is nullable. */
  datatype Exception = Exception(message: Option<string>)

  /** `Result.Success(data)` or `Result.Error(exception)`. */
  datatype Result<+T> = Success(data: T) | Error(exception: Exception)
}
