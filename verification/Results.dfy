/** Results of operations that may fail. */
module Results {
  datatype ErrorKind =
    | UnexpectedEof | UnexpectedByte | TrailingData
    | InvalidEscape | InvalidUnicode | ControlCharacter | InvalidNumber
    | DepthLimitExceeded | BufferTooSmall | TypeMismatch | UnexpectedToken | InvalidState | PathTooLong
    | Capacity

  datatype Res<+T> = Ok(value: T) | Err(kind: ErrorKind) {
    predicate IsFailure() { Err? }

    function PropagateFailure<U>(): Res<U>
      requires Err?
    {
      Err(kind)
    }

    function Extract(): T
      requires Ok?
    {
      value
    }
  }
}
