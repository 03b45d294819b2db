/** The exceptions the LED-matrix code raises, one constructor per distinct cause. */
module Errors {

  datatype Error =
    | PixelArguments   // set_pixel / clear: not one (r, g, b) value and not three values
    | ArgumentType     // set_pixel: len() of a number, or a sequence compared with 255
    | XOutOfRange      // x outside 0..7
    | YOutOfRange      // y outside 0..7
    | ElementOutOfRange // set_pixel: a colour element outside 0..255
    | PixelListShape   // set_pixels: the values cannot be shaped to 8 x 8 x 3
    | PixelListRange   // set_pixels: some value is above 255 or below 0
    | BadRotation      // a rotation other than 0, 90, 180 or 270
    | LetterTooLong    // show_letter: more than one character
    | AtlasShape       // the font atlas pixel count is not a multiple of 40
    | AtlasTooShort    // the character order names more characters than the atlas has blocks
    | MissingGlyph     // neither the character nor '?' is in the glyph table
    | OutsideDevice    // a seek past the 64 cells of the device memory

  /** Result of an operation that returns nothing on success. */
  datatype Outcome = Pass | Fail(error: Error)

  /** Result of an operation that returns a value on success. */
  datatype Result<T> = Ok(value: T) | Err(error: Error)
}
