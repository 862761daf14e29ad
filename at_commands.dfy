/**
 * The vocabulary of the AT command interpreter (`at.h`): the recognised
 * commands, the operation types, the error codes and the command signatures
 * built from the protocol's string pieces.
 */
module AtCommands {

  import opened Wrappers

  /** `AT_Command`; `CommandNone` is "nothing recognised". */
  datatype Command = CommandNone | LedOn | Reset | Help

  /** `AT_OperationType`; `TypeNotSet` is the value before any parse. */
  datatype OperationType = TypeNotSet | Get | Set | Execute

  /** `AT_Error_Codes`. */
  datatype ErrorCode = UnknownCommand | WrongParameterToCommand | UnknownError

  /** The number printed for an error code. */
  function ErrorValue(e: ErrorCode): (n: nat)
    ensures 1 <= n <= 3
  {
    match e
    case UnknownCommand => 1
    case WrongParameterToCommand => 2
    case UnknownError => 3
  }

  /** The error code a printed number stands for, if any. */
  function ErrorOfValue(n: nat): (e: Option<ErrorCode>)
    ensures e.Some? <==> 1 <= n <= 3
  {
    if n == 1 then Some(UnknownCommand)
    else if n == 2 then Some(WrongParameterToCommand)
    else if n == 3 then Some(UnknownError)
    else None
  }

  /** The codes are exactly 1, 2 and 3, one per error. */
  lemma ErrorValueRoundTrip(e: ErrorCode, n: nat)
    ensures ErrorOfValue(ErrorValue(e)) == Some(e)
    ensures ErrorOfValue(n) == Some(e) ==> ErrorValue(e) == n
    ensures ErrorValue(UnknownCommand) == 1 && ErrorValue(WrongParameterToCommand) == 2
    ensures ErrorValue(UnknownError) == 3
  {
  }

  const AtPrefix: string := "AT+"
  const AtLedOn: string := "LED_ON"
  const AtReset: string := "RESET"
  const AtHelp: string := "HELP"
  const AtEqual: string := "="

  /** The signature of the LED command, parameter separator included. */
  function LedOnSignature(): (s: string)
    ensures s == "AT+LED_ON="
  {
    AtPrefix + AtLedOn + AtEqual
  }

  function ResetSignature(): (s: string)
    ensures s == "AT+RESET"
  {
    AtPrefix + AtReset
  }

  function HelpSignature(): (s: string)
    ensures s == "AT+HELP"
  {
    AtPrefix + AtHelp
  }
}
