/** Values shared by every part of the model: Java's nullable references and
    the exceptions the segmenter's classes throw, as plain datatypes. */
module Common {

  /** A Java reference that may be null. */
  datatype Option<+T> = None | Some(value: T)

  /** The exceptions thrown by the modelled classes. */
  datatype Error =
    | NullPointer        // NullPointerException
    | IllegalArgument    // IllegalArgumentException
    | IllegalState       // IllegalStateException (TextHandler contract violations)
    | UnknownTokenType   // UnknownTokenTypeException
    | AlreadyHasParent   // AlreadyHasParentException
    | DuplicateElement   // DuplicateElementException
    | NoDict             // NoDictException
    | DictionaryHandle   // DictionaryHandleException
    | IO                 // IOException (reading a closed reader)
    | IndexOutOfBounds   // IndexOutOfBoundsException

  /** The completion of a void Java method: it returns normally or throws. */
  datatype Outcome = Pass | Fail(error: Error)

  /** The completion of a value-returning Java method. */
  datatype Result<+T> = Success(value: T) | Failure(error: Error)
}
