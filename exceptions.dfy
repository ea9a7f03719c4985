/**
 * The .NET exceptions that the modelled code throws or lets through, and a
 * Result type standing for "returns a value or throws".
 */
module Exceptions {

  datatype Exception =
    | FormatException(message: string)
    | JsonException(message: string)
    | InvalidOperationException(message: string)
    | ArgumentNullException(message: string)
    | NullReferenceException(message: string)
    | HttpRequestException(message: string)

  datatype Result<+T> = Ok(value: T) | Err(error: Exception) {

    /** The value, or `default` after an exception. */
    function GetOr(default: T): T {
      match this
      case Ok(v) => v
      case Err(_) => default
    }
  }

  /** Message of the FormatException thrown by Convert.FromBase64String. */
  const InvalidBase64Message: string :=
    "The input is not a valid Base-64 string as it contains a non-base 64 character, more than two padding characters, or an illegal character among the padding characters."

  /** Message of the NullReferenceException raised by dereferencing null. */
  const NullReferenceMessage: string := "Object reference not set to an instance of an object."

  /** Message of the ArgumentNullException thrown for the parameter `param`. */
  function ArgumentNullMessage(param: string): string {
    "Value cannot be null. (Parameter '" + param + "')"
  }

  /** Message of the JsonException thrown when a JSON value has the wrong kind for `target`. */
  function ConversionMessage(target: string): string {
    "The JSON value could not be converted to " + target + "."
  }
}
