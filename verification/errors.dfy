/** Option and Result, and the failures the display driver reports. Each constructor stands for one
    `raise` of the driver; the name says which check fired. */
module Errors {

  datatype Error =
    // constructor validation
    | WrongSegmentCount          // not exactly 8 segment pins
    | NoDigits                   // fewer than 1 digit pin
    | NegativeOnTime             // led_on_time < 0
    | NegativeDigitDelay         // digit_delay < 0
    | UnknownCommon              // common is neither 0 nor 1
    // per-digit setters
    | DigitOutOfRange            // digit index past the last digit
    | SegmentOutOfRange          // segment index past the last segment
    | UnsupportedCharacter(text: string)  // not a key of the glyph table
    // string rendering capacity checks
    | StringTooLong
    | TooManySeparators
    | TooManyCharacters
    | TooManyDoubledSeparators
    | TooManyCharactersAfterSpaces
    | EmptyString                // reading the first character of ""

  /** A value that may be absent. */
  datatype Option<+T> = None | Some(value: T)

  /** A value or the error that prevented it. */
  datatype Result<+T> = Ok(value: T) | Fail(error: Error)
}
