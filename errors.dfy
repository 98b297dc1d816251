/** The exceptions the services raise, folded into one datatype, with the
    messages their constructors build. */
module Errors {

  /** `ModelNotFoundException` takes its id as `Any`: a numeric id or, in
      `login`, a nickname. */
  datatype ModelId = ById(id: int) | ByName(name: string)

  datatype Error =
    | ModelNotFound(model: string, id: ModelId)  // ModelNotFoundException
    | AccessDenied(text: string)                 // AccessDeniedException
    | IllegalArgument(message: string)           // IllegalArgumentException
    | InvalidCredential(text: string)            // InvalidCredentialException

  function DigitChar(d: nat): char
    requires d < 10
  {
    "0123456789"[d]
  }

  /** Decimal rendering of a non-negative number, as `Long.toString` does. */
  function NatToString(n: nat): string
    decreases n
  {
    if n < 10 then [DigitChar(n)] else NatToString(n / 10) + [DigitChar(n % 10)]
  }

  function IntToString(i: int): string {
    if i < 0 then "-" + NatToString(-i) else NatToString(i)
  }

  function IdToString(id: ModelId): string {
    match id
    case ById(n) => IntToString(n)
    case ByName(s) => s
  }

  /** The exception message as each exception's constructor formats it. */
  function Message(e: Error): string {
    match e
    case ModelNotFound(model, id) => model + " Not Found With Given Id: " + IdToString(id)
    case AccessDenied(text) => "Access Denied: " + text
    case IllegalArgument(message) => message
    case InvalidCredential(text) => "Invalid Credential: " + text
  }
}
