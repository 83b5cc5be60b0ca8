/** Option, Result and Outcome, and the errors the controller raises. */
module Wrappers {

  datatype Option<+T> = None | Some(value: T)

  datatype Result<+T, +E> = Success(value: T) | Failure(error: E)

  /** The result of an operation that returns nothing but may raise. */
  datatype Outcome<+E> = Pass | Fail(error: E)

  /** The exceptions of pi-cooler.py that the modelled core can raise. */
  datatype Error =
    | EmptyPin              // SetupInputException: "Pin must not be empty."
    | PinInUse(pin: string) // SetupInputException: "Pin '%s' already in use."
    | BadTimeSpan           // ValueError from _parseTimeSpan
    | BadTemperature        // ValueError from _parseTemp
    | EmptyCommands         // TypeError: "must be a non-empty list of strings"
    | CommandNotString      // TypeError: "must be a list of strings"
    | DivisionByZero        // ZeroDivisionError
    | NoDevice              // AttributeError: ioPin is None before initialize()
}
