/** Result wrapper and the exceptions the Java code throws, as values. */
module Base {

  datatype Option<+T> = None | Some(value: T)

  datatype Result<+T> = Success(value: T) | Failure(error: Exception) {
    predicate IsFailure() { Failure? }
    function PropagateFailure<U>(): Result<U>
      requires Failure?
    {
      Failure(error)
    }
    function Extract(): T
      requires Success?
    {
      value
    }
  }

  /** A void Java method: it returns normally or throws. */
  datatype Outcome = Pass | Fail(error: Exception) {
    predicate IsFailure() { Fail? }
    function PropagateFailure(): Outcome
      requires Fail?
    {
      this
    }
  }

  /** What is wrong with a message's structure (UnexpectedMessageFormatException). */
  datatype FormatProblem =
    | UnknownBinary(baseType: string, fileExt: Option<string>)  // base64 part of no known kind
    | NonXmlZipEntry(fileExt: Option<string>)                    // zip entry that is not .xml
    | UnknownContent(className: string)                          // content object of an unknown class
    | NoXmlFile                                                  // no payload at all
    | MoreThanOneXmlFile(count: nat)                             // several payloads

  /** The exceptions of the modelled code, by Java class. */
  datatype Exception =
    | UnexpectedMessageFormat(problem: FormatProblem)
    | CmdLine(message: string)
    | IllegalArgument(message: string)
    | NullPointer(message: string)
    | IllegalState(message: string)
    | UnsupportedOperation
    | IO(message: string)
    | DateTime(message: string)
}
