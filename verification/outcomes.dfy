/** Failure-compatible result types shared by every module of the class-file reader model. */
module Outcomes {

  datatype Option<+T> = None | Some(value: T)

  /** The ways one parse attempt can end without a class. */
  datatype Error =
    | EndOfInput                                        // a read ran past the end of the stream (EOFException)
    | BadMagic(magic: bv32)                             // ClassFormatError "bad magic number"
    | UnsupportedVersion(major: bv16, minor: bv16)      // UnsupportedClassVersionError
    | BadConstantPool(tag: bv8)                         // ClassFormatError "bad constant pool"
    | NotReached                                        // internal-consistency failure (assertion NOT_REACHED)
    | IndexOutOfRange(index: int)                       // a pool index outside the pool array
    | WrongEntryKind(index: int)                        // a pool entry whose packed tag is not the one asserted
    | MalformedString                                   // UTFDataFormatException while interning a string literal
    | IdentityMismatch(expected: bv32, found: Option<bv32>) // the file holds another class than expected
    | NullDereference                                   // a null type reference was dereferenced
    | ShortSkip                                         // IOException "Unexpected short skip"
    | SubReaderFailure                                  // a field/method/annotation sub-reader failed

  datatype Result<+T> = Ok(value: T) | Err(error: Error) {

    predicate IsFailure() {
      Err?
    }

    function PropagateFailure<U>(): Result<U>
      requires Err?
    {
      Err(error)
    }

    function Extract(): T
      requires Ok?
    {
      value
    }
  }
}
