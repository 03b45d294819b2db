/**
 * The rotation setting and _xy_rotated, which turns a logical (x, y) into the
 * offset of a cell in the device's 64-cell stream.
 */
module Rotation {
  import opened Errors

  predicate ValidRotation(r: int) {
    r == 0 || r == 90 || r == 180 || r == 270
  }

  /** Quarter turns np.rot90 applies when set_pixels writes at rotation r. */
  function WriteTurns(r: int): (t: nat)
    requires ValidRotation(r)
    ensures t <= 3 && 90 * t == r
  {
    if r > 0 then r / 90 else 0
  }

  /** Quarter turns np.rot90 applies when get_pixels reads at rotation r. */
  function ReadTurns(r: int): (t: nat)
    requires ValidRotation(r)
    ensures t <= 3 && (90 * t + r) % 360 == 0
  {
    if r > 0 then (360 - r) / 90 else 0
  }

  /** Reading undoes writing: the two rotations together are zero or four quarter turns. */
  lemma TurnsCancel(r: int)
    requires ValidRotation(r)
    ensures WriteTurns(r) <= 4 && ReadTurns(r) == (if WriteTurns(r) == 0 then 0 else 4 - WriteTurns(r))
  {
  }

  /** _xy_rotated: the four formulas, ValueError for any other rotation. */
  function XyRotated(x: int, y: int, rotation: int): (r: Result<int>)
    ensures r.Err? <==> !ValidRotation(rotation)
    ensures r.Err? ==> r.error == BadRotation
  {
    if rotation == 0 then Ok(x + 8 * y)
    else if rotation == 90 then Ok(8 + 8 * x - y)
    else if rotation == 180 then Ok(72 - x - 8 * y)
    else if rotation == 270 then Ok(64 - 8 * x + y)
    else Err(BadRotation)
  }

  predicate OnGrid(x: int, y: int) {
    0 <= x <= 7 && 0 <= y <= 7
  }

  /** For each rotation, distinct grid positions get distinct offsets. */
  lemma XyRotatedInjective(rotation: int, x1: int, y1: int, x2: int, y2: int)
    requires ValidRotation(rotation) && OnGrid(x1, y1) && OnGrid(x2, y2)
    requires XyRotated(x1, y1, rotation) == XyRotated(x2, y2, rotation)
    ensures x1 == x2 && y1 == y2
  {
  }

  /** Range of offsets per rotation over the 8 x 8 grid. */
  lemma XyRotatedRange(x: int, y: int, rotation: int)
    requires ValidRotation(rotation) && OnGrid(x, y)
    ensures var off := XyRotated(x, y, rotation).value;
      && (rotation == 0 ==> 0 <= off <= 63)
      && (rotation == 90 ==> 1 <= off <= 64)
      && (rotation == 180 ==> 9 <= off <= 72)
      && (rotation == 270 ==> 8 <= off <= 71)
  {
  }

  /** At rotation 0 the offset is a bijection from the grid onto 0..63: x + 8y, inverted by (n % 8, n / 8). */
  lemma XyRotatedZeroBijective(n: int)
    requires 0 <= n < 64
    ensures OnGrid(n % 8, n / 8) && XyRotated(n % 8, n / 8, 0) == Ok(n)
  {
  }

  /** The other rotations reach past the 64 cells: (7, 0) at 90 and (0, 0) at 180 and 270. */
  lemma XyRotatedLeavesDevice()
    ensures XyRotated(7, 0, 90) == Ok(64)
    ensures XyRotated(0, 0, 180) == Ok(72)
    ensures XyRotated(0, 0, 270) == Ok(64)
  {
  }

  /** show_message / show_letter turn the rotation left by 90 degrees, 0 wrapping to 270. */
  function TextRotation(r: int): (t: int)
    ensures ValidRotation(r) ==> ValidRotation(t) && (t + 90) % 360 == r
  {
    if r - 90 < 0 then 270 else r - 90
  }

  /**
   * Writing at the text rotation and reading back at the caller's rotation
   * always amounts to three quarter turns, whatever the caller's rotation:
   * text is drawn the same way up on every orientation of the board.
   */
  lemma TextTurns(r: int)
    requires ValidRotation(r)
    ensures WriteTurns(TextRotation(r)) + ReadTurns(r) == 3
  {
  }
}
