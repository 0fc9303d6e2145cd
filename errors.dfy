/** The exceptions raised by the parameter collections, as values.

    The source raises a `RuntimeError` with a fixed message for type, duplicate
    and link problems, and lets the underlying `dict` raise `KeyError` for a
    missing name or collection key. Each message becomes one constructor here.
 */
module Errors {

  datatype Error =
    | NotAParameter        // "A non-Parameter object was given to Parameters class."
    | NotAList             // "Parameters class takes list as input."
    | DuplicateName        // "Duplicate parameter name in parameters!"
    | MissingName(name: string)  // KeyError on a parameter name
    | MissingCollection    // KeyError on a calculator key of the shared dict
    | NotParametersObject  // "ParametersCollection holds objects of type Parameters, ..."
    | LinksNotADict        // "links should be a dict"
    | UnknownLinkKey       // "A link had a key which was not recognized."

  /** The outcome of an operation that returns nothing or raises. */
  datatype Outcome = Pass | Fail(error: Error)

  /** The outcome of an operation that returns a value or raises. */
  datatype Result<+T> = Success(value: T) | Failure(error: Error)
}
