/** The exceptions the modelled code raises or lets through, and the
    `Exception.Message` text each one carries. */
module Errors {

  datatype Error =
    | ArgumentNull(paramName: string)  // ArgumentNullException for a null argument
    | NullReference                    // NullReferenceException: a member access on null
    | ModuleNotFound(name: string)     // no registered module has the requested name
    | Raised(message: string)          // thrown by a collaborator: IIS, the database, a module body

  /** The message text of each exception, as .NET Framework phrases it for
      the two framework exceptions. */
  function Message(e: Error): (r: string)
    ensures e.ArgumentNull? ==> |e.paramName| < |r| && r[|r| - |e.paramName|..] == e.paramName
    ensures e.NullReference? ==> |r| > 0
    ensures e.ModuleNotFound? ==> |"Module '"| + |e.name| <= |r| && r[|"Module '"|..|"Module '"| + |e.name|] == e.name
    ensures e.Raised? ==> r == e.message
  {
    match e
    case ArgumentNull(p) => "Value cannot be null.\r\nParameter name: " + p
    case NullReference => "Object reference not set to an instance of an object."
    case ModuleNotFound(name) => "Module '" + name + "' was not found."
    case Raised(m) => m
  }
}
