# Sense HAT LED matrix engine, modelled in Dafny

This project models the LED-matrix part of the `SenseHat` class of the Sense
HAT Python library: the 8 x 8 RGB matrix seen through a framebuffer device of
64 RGB565 cells. The model covers:

- the RGB565 codec (`_pack_bin` and `_unpack_bin`);
- the rotation setting and the single-cell offsets of `_xy_rotated`;
- the bulk writes and reads, `set_pixels` and `get_pixels`, with their
  `np.rot90` quarter turns;
- the single-cell writes and reads, `set_pixel` and `get_pixel`;
- `set_rotation`, `flip_h`, `flip_v` and `clear`;
- the character table, built by `_load_text_assets`, read by
  `_get_char_pixels` and trimmed by `_trim_whitespace`;
- the text renderers `show_message` and `show_letter`.

Modules, one per file:

- `Errors` (`errors.dfy`): each exception the code raises, as a value.
- `Codec` (`codec.dfy`): pixels and 16-bit cells.
  - A cell is an integer in `[0, 65536)`.
  - Each mask and shift becomes a division or remainder by a power of two.
- `Rotation` (`rotation.dfy`): the rotation angle, the number of quarter turns
  each bulk path applies, `_xy_rotated`, and the temporary text rotation.
- `Frame` (`frame.dfy`): 8 x 8 frames as 8 rows of 8 pixels.
  - `np.rot90`, `np.fliplr` and `np.flipud`, and the reshapes between value
    streams and frames.
  - The conversion to `uint16` and the checks of `set_pixels`.
  - The 64-cell device image.
- `Args` (`args.dfy`): the positional colour arguments of `set_pixel` and
  `clear`. Each is a number or a tuple of numbers.
- `Glyphs` (`glyphs.dfy`): the character table, the `'?'` fallback, and the
  trim with its two scanning loops.
- `Text` (`text.dfy`): the scroll strip, the recolouring, the 8-row windows and
  the letter frame.
- `LedMatrix` (`sense_hat.dfy`): class `SenseHat`.
  - Its fields are `rotation`, the character table `textDict`, and the device
    `fb`, an array of 64 words.
  - Each public operation is a method whose contract states the new device
    contents on every path, failures included.
  - The ghost function `Displayed()` is the frame the viewer sees: the device
    image read back at the current rotation.

Where the behaviour described for the library and its code differ, the model
follows the code:

- `_trim_whitespace` returns a glyph whose total is not positive (an all-black
  glyph) unchanged, with all 5 rows. It never returns 0 rows.
- `show_letter` puts the glyph in rows 1 to 5 (`[1:6]`), untrimmed.
- A pixel counts as text when any one of its channels is 255, not only when it
  is pure white.
- Nothing guarantees that the rotation is restored. Both renderers leave the
  temporary rotation in place when a glyph lookup fails or `set_pixels`
  refuses a frame. `show_letter` refuses a string longer than one character
  before it touches the rotation.
- `_xy_rotated` does not agree with the bulk path (`Frame.BulkAndSingleDisagree`).
  It points somewhere other than the cell where `set_pixels` puts the same
  logical pixel:
  - at rotations 180 and 270, for every pixel;
  - at rotation 90, for every pixel except (3, 0).

  It also reaches past the 64 cells (`Rotation.XyRotatedLeavesDevice`).
  - A `set_pixel` at such an offset is a failed device write: nothing changes.
  - A `get_pixel` there reads nothing: `pix[0]` has no element.
  - Both are modelled as the `OutsideDevice` error.
- `set_pixels` first converts its input to `uint16`, so integers wrap modulo
  65536. Its `min() < 0` test can never fail; a negative value is refused
  only because it wraps above 255.

## Model

| member | source | states |
|---|---|---|
| Codec.Pack | sense_hat/sense_hat.py:198-207 | the cell holds the top 5 bits of red in bits 11-15, the top 6 of green in bits 5-10 and the top 5 of blue in bits 0-4 |
| Codec.Unpack | sense_hat/sense_hat.py:209-220 | every decoded cell is a quantised pixel: channels in 0..255, red and blue multiples of 8, green a multiple of 4 |
| Codec.UnpackPack | sense_hat/sense_hat.py:198-220 | decoding an encoded in-range pixel gives it back with the low 3/2/3 bits of the channels cleared (r & 0xF8, g & 0xFC, b & 0xF8) |
| Codec.PackUnpack | sense_hat/sense_hat.py:198-220 | every 16-bit cell decodes to an in-range pixel that encodes back to the same cell |
| Codec.RoundTripIdempotent | sense_hat/sense_hat.py:198-220 | a second encode/decode round trip changes nothing |
| Codec.QuantiseFixedPoints | sense_hat/sense_hat.py:198-220 | the precision loss yields a quantised pixel and leaves exactly the quantised pixels unchanged |
| Rotation.WriteTurns | sense_hat/sense_hat.py:263-264 | set_pixels turns the frame rotation / 90 quarter turns, none at rotation 0, at most 3 |
| Rotation.ReadTurns | sense_hat/sense_hat.py:274-276 | get_pixels turns the frame the rest of the way round: its quarter turns plus the rotation make a whole number of circles, at most 3 turns |
| Rotation.TurnsCancel | sense_hat/sense_hat.py:262-276 | the read-side quarter turns are 4 minus the write-side ones, or both are zero at rotation 0 |
| Rotation.XyRotated | sense_hat/sense_hat.py:183-196 | an offset exists exactly for rotations 0, 90, 180 and 270; any other rotation is a rotation error |
| Rotation.XyRotatedInjective | sense_hat/sense_hat.py:183-196 | at each valid rotation, distinct grid positions get distinct offsets |
| Rotation.XyRotatedRange | sense_hat/sense_hat.py:183-196 | offset ranges over the grid: 0..63 at 0, 1..64 at 90, 9..72 at 180, 8..71 at 270 |
| Rotation.XyRotatedZeroBijective | sense_hat/sense_hat.py:187-188 | at rotation 0 every offset n in 0..63 is reached from the grid position (n % 8, n / 8) |
| Rotation.XyRotatedLeavesDevice | sense_hat/sense_hat.py:189-194 | (7, 0) at 90 gives 64, (0, 0) at 180 gives 72 and at 270 gives 64, all past the device |
| Rotation.TextRotation | sense_hat/sense_hat.py:406-409 | the text rotation is a valid rotation a quarter turn before the caller's (0 goes to 270) |
| Rotation.TextTurns | sense_hat/sense_hat.py:444-447 | writing at the text rotation and reading at the caller's rotation always makes three quarter turns |
| Frame.Rot90 | sense_hat/sense_hat.py:264 | np.rot90 makes an 8 x 8 frame in which cell (i, j) of the input sits at (7 - j, i): one anticlockwise quarter turn |
| Frame.RotK | sense_hat/sense_hat.py:263-276 | np.rot90(g, k) is an 8 x 8 frame for every k; its laws are the RotK lemmas below |
| Frame.FlipLR | sense_hat/sense_hat.py:227 | np.fliplr makes an 8 x 8 frame in which cell (i, j) of the input sits at (i, 7 - j) |
| Frame.FlipUD | sense_hat/sense_hat.py:237 | np.flipud makes an 8 x 8 frame in which row i of the input sits at row 7 - i |
| Frame.RotKAdd | sense_hat/sense_hat.py:262-276 | turning by a then by b is turning by a + b |
| Frame.RotKFull | sense_hat/sense_hat.py:262-276 | four quarter turns give the frame back |
| Frame.RotKInverse | sense_hat/sense_hat.py:262-276 | turning by k and then by 4 - k is the identity |
| Frame.FlipLRInvolution | sense_hat/sense_hat.py:222-230 | mirroring left to right twice gives the frame back |
| Frame.FlipUDInvolution | sense_hat/sense_hat.py:232-240 | mirroring top to bottom twice gives the frame back |
| Frame.FlipsMakeHalfTurn | sense_hat/sense_hat.py:222-240 | mirroring both ways is the half turn |
| Frame.RotKSolid | sense_hat/sense_hat.py:356-379 | a one-colour frame is unchanged by any number of quarter turns |
| Frame.QuantiseSolid | sense_hat/sense_hat.py:356-379 | quantising a one-colour frame gives the one-colour frame of the quantised colour |
| Frame.RotKQuantise | sense_hat/sense_hat.py:262-276 | quantising commutes with turning |
| Frame.Encode | sense_hat/sense_hat.py:198-207 | a frame packs into exactly 64 cells |
| Frame.Decode | sense_hat/sense_hat.py:209-220 | 64 cells unpack into an 8 x 8 frame of quantised pixels |
| Frame.DecodeEncode | sense_hat/sense_hat.py:198-220 | reading back a written in-range frame gives the quantised frame |
| Frame.EncodeDecode | sense_hat/sense_hat.py:198-220 | writing back a read device image leaves every cell as it was |
| Frame.QuantisedFrameFixed | sense_hat/sense_hat.py:198-220 | a quantised frame is in range and is its own quantisation |
| Frame.DeviceImage | sense_hat/sense_hat.py:262-265 | the image set_pixels writes has 64 cells |
| Frame.DeviceImageSolid | sense_hat/sense_hat.py:356-379 | a one-colour frame fills all 64 cells with the packed colour at every rotation |
| Frame.ReadAfterWrite | sense_hat/sense_hat.py:242-277 | get_pixels after set_pixels at the same rotation yields the written frame, quantised |
| Frame.BulkOffsetPlacement | sense_hat/sense_hat.py:262-265 | set_pixels stores logical (x, y) at cell 8y+x, 8(7-x)+y, 63-8y-x or 8x+7-y for rotations 0, 90, 180, 270 |
| Frame.BulkAndSingleDisagree | sense_hat/sense_hat.py:183-196 | _xy_rotated is the bulk offset at rotation 0, 64 minus it at 90, it plus 9 at 180 and 71 minus it at 270; so the two agree only at (3, 0) at rotation 90 and never at 180 or 270 |
| Frame.ToUint16 | sense_hat/sense_hat.py:249-253 | the conversion keeps the length, yields values in 0..65535, and each differs from the input by a multiple of 65536 |
| Frame.ToUint16Identity | sense_hat/sense_hat.py:249-253 | values already in 0..65535 are unchanged by the conversion |
| Frame.CheckPixelList | sense_hat/sense_hat.py:254-260 | success iff there are 192 values, each at most 255 after wrapping; otherwise a shape error when the count is wrong, else a range error |
| Frame.Shape | sense_hat/sense_hat.py:254-258 | reshape(8, 8, 3) of 192 values is an 8 x 8 frame; ShapeChannels and ChannelsShape make it the inverse of Channels |
| Frame.Channels | sense_hat/sense_hat.py:254-258 | a frame flattens to exactly 192 values |
| Frame.ShapeChannels | sense_hat/sense_hat.py:254-258 | reshaping a frame's own 192 values gives the frame back |
| Frame.ChannelsShape | sense_hat/sense_hat.py:254-258 | flattening a reshaped stream of 192 values gives the stream back |
| Frame.Accepted | sense_hat/sense_hat.py:249-260 | a stream that passed the checks shapes into an in-range frame |
| Frame.AcceptFrame | sense_hat/sense_hat.py:249-260 | an in-range frame passes the checks and is drawn unchanged |
| Frame.RefuseFrame | sense_hat/sense_hat.py:259-260 | a frame with a channel outside 0..255 (within uint16) is refused with the range error |
| Frame.DecodeUpdate | sense_hat/sense_hat.py:311-314 | writing cell 8y+x changes (x, y) to the quantised pixel and no other position |
| Frame.FlatPixels | sense_hat/sense_hat.py:277 | the (64, 3) view holds frame cell (i, j) at 8i+j |
| Frame.Unflatten | sense_hat/sense_hat.py:226-236 | reshape(8, 8, 3) of the 64 pixels get_pixels returns is an 8 x 8 frame holding pixel 8i + j at (i, j) |
| Frame.UnflattenFlat | sense_hat/sense_hat.py:226 | reshaping the (64, 3) view back to 8 x 8 gives the frame |
| Frame.FlipsQuantised | sense_hat/sense_hat.py:222-240 | mirroring a quantised frame keeps it quantised and in range |
| Args.PixelArgs | sense_hat/sense_hat.py:289-299 | one argument of length 3 is accepted as its three values, three arguments as themselves; a single number is a type error, any other shape the argument error |
| Args.CheckElements | sense_hat/sense_hat.py:307-309 | success iff every element is a number in 0..255; a failure names the first bad element, a type error for a tuple, a range error for a number |
| Args.SetPixelRequest | sense_hat/sense_hat.py:279-309 | success iff the argument shape, x, y and all three elements are good; the first failing check, in that order, gives the error; the pixel is the arguments' values |
| Args.CheckXY | sense_hat/sense_hat.py:322-326 | success iff (x, y) is on the grid; x is checked before y |
| Args.ClearColour | sense_hat/sense_hat.py:369-377 | 0, 1 or 3 arguments are accepted: no argument means black, one argument is its own values, three are their values in order; other counts are the argument error |
| Args.Repeat | sense_hat/sense_hat.py:379 | n copies of a colour are n times its length values long |
| Args.RepeatColour | sense_hat/sense_hat.py:379 | [colour] * 64 flattens to 64 times the colour's length values |
| Args.RepeatAt | sense_hat/sense_hat.py:379 | value k of [colour] * n is channel k % 3 of a three-value colour |
| Args.ClearFrame | sense_hat/sense_hat.py:356-379 | clear's stream passes the checks iff the colour has three values that wrap into 0..255, and then draws the one-colour frame |
| Glyphs.Block | sense_hat/sense_hat.py:81-82 | block i is 5 rows of 8 pixels, pixel (k, j) being pixel 40i + 8k + j of the image |
| Glyphs.Table | sense_hat/sense_hat.py:85-90 | the table holds only glyphs and has exactly the characters of the text file as keys |
| Glyphs.TableAt | sense_hat/sense_hat.py:85-90 | a character maps to the block of its last occurrence in the text file |
| Glyphs.TableExtend | sense_hat/sense_hat.py:85-89 | loading the next character of the text file maps it to the next block, over any earlier entry, and keeps the rest of the table |
| Glyphs.CharPixels | sense_hat/sense_hat.py:381-390 | a one-character string with a glyph gets it, anything else gets the '?' glyph; the lookup fails iff neither exists |
| Glyphs.LookupAfterLoad | sense_hat/sense_hat.py:74-90 | after loading, a character of the text file draws the block of its last occurrence |
| Glyphs.LookupFallback | sense_hat/sense_hat.py:387-390 | after loading, a character missing from the text file draws the block of the last '?' |
| Glyphs.RowSum | sense_hat/sense_hat.py:102-106 | the sum of a row of in-range pixels lies between 0 and 765 per pixel |
| Glyphs.Sum | sense_hat/sense_hat.py:100 | a glyph whose rows have non-negative sums has a non-negative total |
| Glyphs.PositiveRow | sense_hat/sense_hat.py:100-106 | a glyph with a positive total has a row with a positive sum |
| Glyphs.FirstLit | sense_hat/sense_hat.py:101-104 | the forward scan from row i stops at a row between i and 4 |
| Glyphs.LastLit | sense_hat/sense_hat.py:106-109 | the backward scan from row i stops at a row between 0 and i |
| Glyphs.FirstLitSpec | sense_hat/sense_hat.py:101-104 | the forward scan stops at the first positive row at or after its start, skipping only non-positive rows |
| Glyphs.LastLitSpec | sense_hat/sense_hat.py:106-109 | the backward scan stops at the last positive row at or before its start, skipping only non-positive rows |
| Glyphs.LitRows | sense_hat/sense_hat.py:100-109 | for a positive glyph the scans find its first and last positive rows, in order, with every positive row between them |
| Glyphs.Trimmed | sense_hat/sense_hat.py:100-110 | the trimmed glyph has 1 to 5 rows of 8 pixels; for a glyph with a positive total its first and last rows are positive |
| Glyphs.TrimmedIsTightSlice | sense_hat/sense_hat.py:92-110 | a positive glyph keeps exactly the slice from its first to its last positive row; any other glyph is kept whole; 1 to 5 rows of 8 remain |
| Glyphs.TrimWhitespace | sense_hat/sense_hat.py:92-110 | the two scanning loops compute the trimmed glyph |
| Text.Blank | sense_hat/sense_hat.py:411-412 | n rows of 8 black pixels |
| Text.Lit | sense_hat/sense_hat.py:419 | a white pixel is drawn text and a black one is not; a drawn pixel can never be a quantised device pixel |
| Text.Recolour | sense_hat/sense_hat.py:418-421 | a pixel with any channel at 255 becomes the text colour, every other pixel the back colour; the shape is kept |
| Text.Body | sense_hat/sense_hat.py:414-416 | the glyph rows are 8 pixels wide; the only failure is a missing glyph |
| Text.BodyOk | sense_hat/sense_hat.py:414-416 | every character can be drawn iff '?' has a glyph or every character has its own |
| Text.BodyHeight | sense_hat/sense_hat.py:413-417 | n characters take between 2n and 6n rows |
| Text.StripHeight | sense_hat/sense_hat.py:410-417 | the strip is 8 + the sum of (trimmed height + 1) + 8 rows |
| Text.Strip | sense_hat/sense_hat.py:410-417 | the strip is at least 16 rows of 8 pixels and exists iff every character can be drawn |
| Text.Windows | sense_hat/sense_hat.py:423-425 | there are (strip height - 8) frames, frame i being rows i to i + 7 of the strip |
| Text.Window | sense_hat/sense_hat.py:425 | scroll_pixels[n:n+8] is an 8 x 8 frame, rows n to n + 7 of the strip |
| Text.FirstRefused | sense_hat/sense_hat.py:423-425 | the index of the first window set_pixels refuses, from n on, or the window count when none is; it lies between n and the window count |
| Text.FirstRefusedSpec | sense_hat/sense_hat.py:423-425 | every window before that index passes the checks, the window at it (if any) fails them, and when every window passes the index is the window count |
| Text.FirstRefusedStep | sense_hat/sense_hat.py:423-425 | one turn of the drawing loop: a refused window is the first refused one; a drawn one leaves the first refused index unchanged and extends the drawn prefix by one window |
| Text.MessageDrawnWhole | sense_hat/sense_hat.py:418-425 | with in-range colours no window of the recoloured strip is refused |
| Text.LastWindowBlank | sense_hat/sense_hat.py:410-425 | the last window of a message is the plain back colour |
| Text.WindowsScroll | sense_hat/sense_hat.py:423-425 | each frame is the previous one moved up by one row |
| Text.MessageFrames | sense_hat/sense_hat.py:410-427 | a message of n characters scrolls through 8 + 2n to 8 + 6n frames, the first and last entirely in the back colour |
| Text.StripEnds | sense_hat/sense_hat.py:410-415 | the strip's first 8 rows and its last 9 (the gap after the last character and the closing padding) are black |
| Text.BlankWindow | sense_hat/sense_hat.py:416-419 | a window holding no drawn pixel is recoloured to the plain back colour |
| Text.WindowsPass | sense_hat/sense_hat.py:416-425 | with in-range colours every window of the recoloured strip passes set_pixels' checks |
| Text.LetterImage | sense_hat/sense_hat.py:448-449 | the letter frame has the glyph in rows 1 to 5 and black rows 0, 6 and 7 |
| Text.RecolourFrame | sense_hat/sense_hat.py:451-453 | a recoloured frame holds only the two colours and is in range when they are |
| Text.RecolouredWindow | sense_hat/sense_hat.py:418-425 | a window of a strip recoloured with in-range colours passes set_pixels' checks and is drawn unchanged |
| LedMatrix.SenseHat.constructor | sense_hat/sense_hat.py:38 | a new matrix is at rotation 0 |
| LedMatrix.SenseHat.GetPixels | sense_hat/sense_hat.py:267-277 | returns the displayed frame row by row, every pixel quantised |
| LedMatrix.SenseHat.SetPixels | sense_hat/sense_hat.py:242-265 | outcome is the value checks; on failure the device is untouched; on success the device holds the frame turned by the rotation and the display shows the frame, quantised |
| LedMatrix.SenseHat.SetPixel | sense_hat/sense_hat.py:279-314 | a refused request changes nothing; an accepted one overwrites exactly the cell at the _xy_rotated offset when it is on the device, and otherwise fails unchanged; at rotation 0 the display changes at (x, y) alone |
| LedMatrix.SenseHat.GetPixel | sense_hat/sense_hat.py:316-335 | coordinate errors first; then the decoded cell at the _xy_rotated offset, or a failure past the device; at rotation 0 it is the displayed pixel at (x, y) |
| LedMatrix.SenseHat.SetRotation | sense_hat/sense_hat.py:168-181 | a bad angle is refused with nothing changed; a good one is set, and with redraw the display is unchanged, without it the device is untouched |
| LedMatrix.SenseHat.FlipH | sense_hat/sense_hat.py:222-230 | returns the displayed frame mirrored left to right; with redraw the display becomes that mirror |
| LedMatrix.SenseHat.FlipV | sense_hat/sense_hat.py:232-240 | returns the displayed frame mirrored top to bottom; with redraw the display becomes that mirror |
| LedMatrix.SenseHat.Clear | sense_hat/sense_hat.py:356-379 | argument and value errors leave the device untouched; on success all 64 cells hold the packed colour and the display is that colour |
| LedMatrix.SenseHat.LoadTextAssets | sense_hat/sense_hat.py:74-90 | an image that is not whole blocks is refused with the table kept; otherwise the table is the one built from the text file, or from its first (image size / 40) characters when it runs out of blocks |
| LedMatrix.SenseHat.ShowMessage | sense_hat/sense_hat.py:392-427 | a missing glyph fails with no frames, the device untouched and the text rotation left in place; otherwise the recoloured strip is scrolled as Scroll states, at the text rotation, which is restored only on success; with in-range colours it always succeeds and leaves the back colour displayed |
| LedMatrix.SenseHat.Scroll | sense_hat/sense_hat.py:423-426 | the frames drawn are exactly the windows before the first refused one, in order; the outcome is a pass iff no window is refused, else the range error; the device holds what it held before when no window was drawn, otherwise the last drawn window written at the current rotation |
| LedMatrix.SenseHat.ShowLetter | sense_hat/sense_hat.py:429-456 | more than one character is refused before anything changes; a missing glyph fails at the text rotation; otherwise the outcome is set_pixels' checks on the recoloured letter frame: a failure leaves the device untouched at the text rotation, a pass leaves the frame written at the text rotation with the caller's rotation restored, and with in-range colours the display is that frame turned three quarter turns at any rotation |
| LedMatrix.BuildStrip | sense_hat/sense_hat.py:410-417 | the appending loop builds the strip |
| LedMatrix.BlankAfterText | sense_hat/sense_hat.py:423-427 | a back-colour frame written at the text rotation is seen in the back colour after the rotation is restored |
| LedMatrix.MessageEndsBlank | sense_hat/sense_hat.py:421-427 | with in-range colours the last window passes the checks, and once the rotation is put back the viewer sees the plain back colour |
| LedMatrix.LetterAfterText | sense_hat/sense_hat.py:447-456 | an in-range letter frame passes the checks, and written at the text rotation and read at the caller's it appears turned three quarter turns |

## Left out

- Device discovery, the settings files and the IMU set-up in the constructor
  are file-system work and are not modelled. The constructor takes the device
  and starts with an empty character table. Callers load the table with
  `LoadTextAssets`.
- `load_image` is not modelled: it needs PIL decoding and antialiased
  thumbnailing. `LoadTextAssets` takes the flattened pixel list of the text
  image, and the characters of the text file, as parameters.
- The gamma and low-light controls are not modelled. They are ioctl calls on
  the device.
- The environmental and IMU sensors are not modelled. They wrap a native
  library and use floating point.
- `show_message`'s `scroll_speed` and `time.sleep` are not modelled. The
  frames drawn are returned as a sequence instead.
- Host byte order of `tostring` is not modelled. A cell is a 16-bit word, not
  two bytes.
- LedMatrix.SenseHat.SetPixels: when the caller passes a `uint16` numpy array
  of another shape, `set_pixels` reshapes that very array to (8, 8, 3), so the
  caller sees its own array change shape. The model takes a stream of values,
  so this aliasing effect on the caller's array is not modelled.
- Floating-point and other non-integer numpy inputs are not modelled, and
  neither are ragged nested lists. Inputs to `set_pixels` are their
  flattened integer values in C order.
- Args.ClearColour: a three-argument call mixing numbers and tuples is
  modelled as the concatenation of their values. numpy would refuse such a
  ragged array.
- LedMatrix.SenseHat.ShowMessage: colours are single pixels. Colour sequences
  of other lengths are not modelled, so numpy broadcasting errors are not
  modelled either.
- LedMatrix.SenseHat.ShowLetter: the same single-pixel colours as
  `ShowMessage`.
- The `rotation` property getter and setter are not modelled separately.
  The setter is `SetRotation(r, true)`.
- Python 2 comparison of tuples with numbers is not modelled. Comparing a
  tuple element with 255 is the type error of Python 3.
