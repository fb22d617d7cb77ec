/** Shared vocabulary of the NMEA 0183 model: bytes, the delimiter bytes of
    the sentence format, and the failure kinds that stand for the places where
    the Rust program panics. */
module Common {

  /** One byte of an input buffer (Rust `u8`). */
  type byte = bv8

  const DOLLAR: byte := 0x24    // '$'
  const ASTERISK: byte := 0x2A  // '*'
  const COMMA: byte := 0x2C     // ','

  datatype Option<+T> = None | Some(value: T)

  /** Every way the program aborts. The Rust code panics in each case (an
      `assert!`, an `unwrap()` on `None`, a slice index past the end, or u8
      arithmetic that overflows in a debug build); here the panic is a value. */
  datatype Error =
    | TooShort            // the buffer has at most 10 bytes
    | BadPrefix           // the buffer does not start with '$'
    | IndexOutOfRange     // the field scan reads past the end of the buffer
    | ArithmeticOverflow  // u8 arithmetic leaves 0..255
    | ChecksumMismatch    // the two digits after '*' differ from the XOR
    | UnknownAddress      // no message is registered for the sentence id
    | NoSuchField         // the field index is past the message's last slot
    | FieldDecode         // the field bytes do not fit the slot's kind; for an
                          // `Option<u8>` slot, empty input (an index past its end)

  datatype Result<+T> = Success(value: T) | Failure(error: Error)

  /** A result without a value, for operations that only change state. */
  datatype Outcome = Pass | Fail(error: Error)
}
