/** The outcomes shared by every layer: an optional value, and a result that is either a
    value or one of the failures the protocol layer can raise. */
module Errors {

  /** Why an operation failed. */
  datatype Error =
    | CommandTooLong   // a command template longer than the 16-byte block_data array
    | TransportFault   // the raw device raised while reading
    | BufferTooShort   // a structure decoded from fewer bytes than its size
    | InvalidText      // a text field whose bytes are not UTF-8
    | DivisionByZero   // an image of width 0, whose row height is a division by 0

  datatype Option<+T> = None | Some(value: T)

  datatype Result<+T> = Ok(value: T) | Err(error: Error) {
    predicate IsFailure() { Err? }
    function PropagateFailure<U>(): Result<U> requires Err? { Err(error) }
    function Extract(): T requires Ok? { value }
  }
}
