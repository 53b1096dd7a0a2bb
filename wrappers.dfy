/**
 * Option and Result, plus the exceptions of the container that the model keeps as
 * explicit outcomes instead of letting them escape.
 */
module Wrappers {

  datatype Option<T> = None | Some(value: T)

  /** The exceptions the modelled code can raise. */
  datatype Fault =
    /** An array index past the end (IndexOutOfRangeException). */
    | IndexOutOfRange
    /** InvalidOperationException with its message. */
    | InvalidOperation(message: string)
    /** A member call on a null reference (NullReferenceException). */
    | NullReference
    /** The expression library rejected a constructor call whose argument list does
        not match the constructor's parameters (ArgumentException). */
    | ArgumentMismatch
    /** An array larger than the runtime allows (OutOfMemoryException). */
    | OutOfMemory
    /** An array created with a negative length (OverflowException). */
    | Overflow
    /** A null passed where a value is required (ArgumentNullException). */
    | ArgumentNull
    /** A cast to an incompatible type (InvalidCastException). */
    | InvalidCast
    /** A member the source leaves unimplemented (NotImplementedException). */
    | NotImplemented
    /** The walk went deeper than the fuel allowed. */
    | OutOfFuel

  datatype Result<T> = Ok(value: T) | Err(fault: Fault)
}
