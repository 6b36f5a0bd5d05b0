/** Optional values, the decoder's error kinds and a failure-compatible result. */
module Outcomes {

  datatype Option<+T> = None | Some(value: T)

  /** One kind per `expect` (or slice panic) of the header decoder, in the order
      the decoder can reach them. */
  datatype FormatError =
    | NoHeaderTerminator        // no newline followed by a non-`$` byte
    | InvalidEncoding           // the header slice is not text
    | MissingChecksumDelimiter  // a line has no `*`
    | InvalidChecksumDigits     // the text after `*` is not a hexadecimal u8
    | EmptyChecksumPayload      // a line starts with `*`, so `[1..]` of its payload is out of range
    | UnparseableNumericToken   // an alarm token is not a number of its kind
    | EmptyTagLine              // a line is shorter than two characters

  datatype Result<+T> = Ok(value: T) | Err(error: FormatError) {
    predicate IsFailure() { Err? }

    function PropagateFailure<U>(): Result<U>
      requires Err?
    {
      Err(error)
    }

    function Extract(): T
      requires Ok?
    {
      value
    }
  }
}
