// Result and option types shared by every module, and the exception classes
// the library raises. Message texts are not modelled.
module Wrappers {

  datatype Option<+T> = None | Some(value: T)

  datatype Error =
    | ValueError
    | RuntimeError
    | OverflowError
    | StructError      // struct.pack out of range
    | TypeError
    | KeyError
    | HeaderParseError
    | DecryptionError
    | DowngradeError
    | SourceError      // whatever a key-establishment primitive raised

  datatype Result<+T> = Success(value: T) | Failure(error: Error)
}
