/** The result envelope every handler returns, and the Option type that stands for a nullable value. */
module Results {

  /** A value that may be absent (a C# null). */
  datatype Option<+T> = None | Some(value: T)

  /**
   * The handlers' result: a success flag, an optional payload and a message.
   * A successful result with a non-empty message is a "soft failure": a business
   * rejection that the API layer must still turn into an error.
   */
  datatype Result<T> = Result(succeeded: bool, data: Option<T>, message: string)

  /** `Result<T>.Success(data, message)`. */
  function Success<T>(data: Option<T>, message: string): Result<T> {
    Result(true, data, message)
  }

  /** `Result<T>.Fail(message)`: no payload. */
  function Fail<T>(message: string): Result<T> {
    Result(false, None, message)
  }

  /** What a call that may throw produces: its value, or the message of the exception. */
  datatype Outcome<T> = Returned(value: T) | Threw(message: string)

  /** A business rejection: marked successful, but carrying a message. */
  predicate IsSoftFailure<T>(r: Result<T>) {
    r.succeeded && r.message != ""
  }
}
