/**
 * The error values of the shell: a kind and a message. Each constructor
 * function builds the message the program builds for that kind.
 */
module Errors {
  import Macros
  import Text

  datatype LashErrorType =
    | ChurchNumError
    | FileError
    | FormatError
    | MacroArgError
    | SetKeyError
    | SetValueError
    | SyntaxError

  datatype LashError = LashError(errorType: LashErrorType, message: string)

  function NewChurchNumError(): (e: LashError)
    ensures e.errorType == ChurchNumError
  {
    LashError(ChurchNumError, "church numerals disabled")
  }

  /** The message names the macro, the arguments it expects and the number given. */
  function NewMacroArgError(m: Macros.Macro, expected: nat, given: nat): (e: LashError)
    ensures e.errorType == MacroArgError
    ensures 6 + |Macros.Name(m)| <= |e.message| && e.message[6..6 + |Macros.Name(m)|] == Macros.Name(m)
  {
    LashError(MacroArgError, "macro " + Macros.Name(m) + " expects " + Text.NatToString(expected)
                             + " arguments, but " + Text.NatToString(given) + " were given")
  }

  /** The key can be read back from the message, between the quotes. */
  function NewSetKeyError(key: string): (e: LashError)
    ensures e.errorType == SetKeyError
    ensures |e.message| == |key| + 14 && e.message[13..|e.message| - 1] == key
  {
    LashError(SetKeyError, "unknown key '" + key + "'")
  }

  /** The value can be read back from the message, between the quotes. */
  function NewSetValueError(value: string): (e: LashError)
    ensures e.errorType == SetValueError
    ensures |e.message| == |value| + 16 && e.message[15..|e.message| - 1] == value
  {
    LashError(SetValueError, "unknown value '" + value + "'")
  }
}
