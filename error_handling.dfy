/**
  The error-handler capability of the client library. A handler receives two
  kinds of notifications; the model records each one, in order, in `log`
  instead of printing it.
 */
module ErrorHandling {

  /** A checked I/O exception raised by the HTTP exchange or by JSON decoding. */
  datatype IOError = IOError(message: string)

  /** One notification received by a handler. */
  datatype Notification =
    | ErrorNote(message: string)
    | ExceptionNote(message: string, cause: IOError)

  /** An error handler, recording every notification it receives. */
  class ErrorHandler {
    var log: seq<Notification>

    constructor ()
      ensures log == []
    {
      log := [];
    }

    /** A recoverable condition: appended as an error notification. */
    method HandleError(errorMessage: string)
      modifies this
      ensures log == old(log) + [ErrorNote(errorMessage)]
    {
      log := log + [ErrorNote(errorMessage)];
    }

    /** An exceptional condition with its cause: appended as an exception notification. */
    method HandleException(message: string, exception: IOError)
      modifies this
      ensures log == old(log) + [ExceptionNote(message, exception)]
    {
      log := log + [ExceptionNote(message, exception)];
    }
  }
}
