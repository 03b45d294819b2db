/**
 * 8 x 8 frames of pixels (numpy arrays of shape (8, 8, 3)), the whole-frame
 * transforms the LED code applies to them (np.rot90, np.fliplr, np.flipud,
 * reshape), and the 64-cell device image they are packed into.
 */
module Frame {
  import opened Errors
  import opened Codec
  import opened Rotation

  /** One row of pixels: a frame has 8 of them, a scroll strip any number. */
  type Row = seq<Pixel>

  predicate IsFrame(g: seq<Row>) {
    |g| == 8 && forall i :: 0 <= i < 8 ==> |g[i]| == 8
  }

  predicate FrameInRange(g: seq<Row>)
    requires IsFrame(g)
  {
    forall i, j :: 0 <= i < 8 && 0 <= j < 8 ==> InRange(g[i][j])
  }

  predicate FrameQuantised(g: seq<Row>)
    requires IsFrame(g)
  {
    forall i, j :: 0 <= i < 8 && 0 <= j < 8 ==> IsQuantised(g[i][j])
  }

  lemma FrameEq(a: seq<Row>, b: seq<Row>)
    requires IsFrame(a) && IsFrame(b)
    requires forall i, j :: 0 <= i < 8 && 0 <= j < 8 ==> a[i][j] == b[i][j]
    ensures a == b
  {
    forall i | 0 <= i < 8 ensures a[i] == b[i] {
      assert forall j :: 0 <= j < 8 ==> a[i][j] == b[i][j];
    }
  }

  /** A frame of one colour. */
  function Solid(c: Pixel): (g: seq<Row>)
    ensures IsFrame(g)
  {
    seq(8, i => seq(8, j => c))
  }

  // ---------------------------------------------------------------------
  // Whole-frame transforms
  // ---------------------------------------------------------------------

  /** np.rot90(g): one counter-clockwise quarter turn, result[i][j] = g[j][7 - i]. */
  function Rot90(g: seq<Row>): (r: seq<Row>)
    requires IsFrame(g)
    ensures IsFrame(r)
    ensures forall i, j :: 0 <= i < 8 && 0 <= j < 8 ==> r[7 - j][i] == g[i][j]
  {
    seq(8, i requires 0 <= i < 8 => seq(8, j requires 0 <= j < 8 => g[j][7 - i]))
  }

  /** np.rot90(g, k). */
  function RotK(g: seq<Row>, k: nat): (r: seq<Row>)
    requires IsFrame(g)
    ensures IsFrame(r)
  {
    if k == 0 then g else Rot90(RotK(g, k - 1))
  }

  /** np.fliplr: columns in reverse order. */
  function FlipLR(g: seq<Row>): (r: seq<Row>)
    requires IsFrame(g)
    ensures IsFrame(r)
    ensures forall i, j :: 0 <= i < 8 && 0 <= j < 8 ==> r[i][7 - j] == g[i][j]
  {
    seq(8, i requires 0 <= i < 8 => seq(8, j requires 0 <= j < 8 => g[i][7 - j]))
  }

  /** np.flipud: rows in reverse order. */
  function FlipUD(g: seq<Row>): (r: seq<Row>)
    requires IsFrame(g)
    ensures IsFrame(r)
    ensures forall i :: 0 <= i < 8 ==> r[7 - i] == g[i]
  {
    seq(8, i requires 0 <= i < 8 => g[7 - i])
  }

  lemma {:induction false} RotKAdd(g: seq<Row>, a: nat, b: nat)
    requires IsFrame(g)
    ensures RotK(RotK(g, a), b) == RotK(g, a + b)
  {
    if b > 0 {
      RotKAdd(g, a, b - 1);
    }
  }

  lemma HalfTurn(g: seq<Row>)
    requires IsFrame(g)
    ensures var h := Rot90(Rot90(g)); forall i, j :: 0 <= i < 8 && 0 <= j < 8 ==> h[i][j] == g[7 - i][7 - j]
  {
  }

  /** Each cell of the frame after one, two and three quarter turns. */
  lemma RotOneCells(g: seq<Row>)
    requires IsFrame(g)
    ensures forall i, j :: 0 <= i < 8 && 0 <= j < 8 ==> RotK(g, 1)[i][j] == g[j][7 - i]
  {
    assert RotK(g, 1) == Rot90(g);
  }

  lemma RotTwoCells(g: seq<Row>)
    requires IsFrame(g)
    ensures forall i, j :: 0 <= i < 8 && 0 <= j < 8 ==> RotK(g, 2)[i][j] == g[7 - i][7 - j]
  {
    assert RotK(g, 1) == Rot90(g);
    assert RotK(g, 2) == Rot90(RotK(g, 1));
  }

  lemma RotThreeCells(g: seq<Row>)
    requires IsFrame(g)
    ensures forall i, j :: 0 <= i < 8 && 0 <= j < 8 ==> RotK(g, 3)[i][j] == g[7 - j][i]
  {
    RotTwoCells(g);
    assert RotK(g, 3) == Rot90(RotK(g, 2));
  }

  /** Four quarter turns give the frame back. */
  lemma RotKFull(g: seq<Row>)
    requires IsFrame(g)
    ensures RotK(g, 4) == g
  {
    var h := RotK(g, 2);
    RotTwoCells(g);
    RotTwoCells(h);
    RotKAdd(g, 2, 2);
    FrameEq(RotK(h, 2), g);
  }

  /** Turning by k and then by 4 - k is the identity (get_pixels after set_pixels). */
  lemma RotKInverse(g: seq<Row>, k: nat)
    requires IsFrame(g) && k <= 4
    ensures RotK(RotK(g, k), 4 - k) == g
  {
    RotKAdd(g, k, 4 - k);
    RotKFull(g);
  }

  lemma FlipLRInvolution(g: seq<Row>)
    requires IsFrame(g)
    ensures FlipLR(FlipLR(g)) == g
  {
    FrameEq(FlipLR(FlipLR(g)), g);
  }

  lemma FlipUDInvolution(g: seq<Row>)
    requires IsFrame(g)
    ensures FlipUD(FlipUD(g)) == g
  {
    FrameEq(FlipUD(FlipUD(g)), g);
  }

  /** Mirroring both ways is the half turn. */
  lemma FlipsMakeHalfTurn(g: seq<Row>)
    requires IsFrame(g)
    ensures FlipLR(FlipUD(g)) == RotK(g, 2)
  {
    var h := Rot90(Rot90(g));
    assert RotK(g, 2) == h by {
      assert RotK(g, 1) == Rot90(g);
    }
    HalfTurn(g);
    FlipsCells(g);
    FrameEq(FlipLR(FlipUD(g)), h);
  }

  /** Each cell of the frame mirrored both ways. */
  lemma FlipsCells(g: seq<Row>)
    requires IsFrame(g)
    ensures var f := FlipLR(FlipUD(g)); forall i, j :: 0 <= i < 8 && 0 <= j < 8 ==> f[i][j] == g[7 - i][7 - j]
  {
  }

  lemma RotKSolid(c: Pixel, k: nat)
    ensures RotK(Solid(c), k) == Solid(c)
  {
    if k > 0 {
      RotKSolid(c, k - 1);
      FrameEq(Rot90(Solid(c)), Solid(c));
    }
  }

  // ---------------------------------------------------------------------
  // Quantisation of whole frames
  // ---------------------------------------------------------------------

  function QuantiseFrame(g: seq<Row>): (q: seq<Row>)
    requires IsFrame(g)
    ensures IsFrame(q)
  {
    seq(8, i requires 0 <= i < 8 => seq(8, j requires 0 <= j < 8 => Quantise(g[i][j])))
  }

  lemma QuantiseSolid(c: Pixel)
    ensures QuantiseFrame(Solid(c)) == Solid(Quantise(c))
  {
    FrameEq(QuantiseFrame(Solid(c)), Solid(Quantise(c)));
  }

  lemma RotKInRange(g: seq<Row>, k: nat)
    requires IsFrame(g) && FrameInRange(g)
    ensures FrameInRange(RotK(g, k))
  {
    if k > 0 {
      RotKInRange(g, k - 1);
    }
  }

  /** Turning a quantised frame gives a quantised frame. */
  lemma RotKQuantised(g: seq<Row>, k: nat)
    requires IsFrame(g) && FrameQuantised(g)
    ensures FrameQuantised(RotK(g, k))
  {
    if k > 0 {
      RotKQuantised(g, k - 1);
    }
  }

  /** Quantising commutes with turning. */
  lemma {:induction false} RotKQuantise(g: seq<Row>, k: nat)
    requires IsFrame(g)
    ensures RotK(QuantiseFrame(g), k) == QuantiseFrame(RotK(g, k))
  {
    if k > 0 {
      RotKQuantise(g, k - 1);
      FrameEq(Rot90(QuantiseFrame(RotK(g, k - 1))), QuantiseFrame(Rot90(RotK(g, k - 1))));
    }
  }

  // ---------------------------------------------------------------------
  // The 64-cell device image
  // ---------------------------------------------------------------------

  /** _pack_bin of a frame: cell 8 * row + column holds the packed pixel. */
  function Encode(g: seq<Row>): (w: seq<Word>)
    requires IsFrame(g) && FrameInRange(g)
    ensures |w| == 64
  {
    seq(64, n requires 0 <= n < 64 => Pack(g[n / 8][n % 8]))
  }

  /** _unpack_bin of the 64 cells, reshaped to 8 x 8. */
  function Decode(w: seq<Word>): (g: seq<Row>)
    requires |w| == 64
    ensures IsFrame(g) && FrameQuantised(g)
  {
    var g := seq(8, i requires 0 <= i < 8 => seq(8, j requires 0 <= j < 8 => Unpack(w[8 * i + j])));
    assert forall i, j :: 0 <= i < 8 && 0 <= j < 8 ==> g[i][j] == Unpack(w[8 * i + j]);
    g
  }

  lemma CellOf(i: int, j: int)
    requires 0 <= i < 8 && 0 <= j < 8
    ensures var n := 8 * i + j; 0 <= n < 64 && n / 8 == i && n % 8 == j
  {
  }

  lemma CellIndex(n: int)
    requires 0 <= n < 64
    ensures 0 <= n / 8 < 8 && 0 <= n % 8 < 8 && 8 * (n / 8) + n % 8 == n
  {
  }

  /** Cell (i, j) of the frame turned by k comes from cell (y, x) of the original. */
  lemma RotCell(g: seq<Row>, k: nat, i: int, j: int, y: int, x: int)
    requires IsFrame(g) && 1 <= k <= 3 && 0 <= i < 8 && 0 <= j < 8
    requires k == 1 ==> y == j && x == 7 - i
    requires k == 2 ==> y == 7 - i && x == 7 - j
    requires k == 3 ==> y == 7 - j && x == i
    ensures 0 <= y < 8 && 0 <= x < 8 && RotK(g, k)[i][j] == g[y][x]
  {
    if k == 1 {
      RotOneCells(g);
    } else if k == 2 {
      RotTwoCells(g);
    } else {
      RotThreeCells(g);
    }
  }

  lemma EncodeCell(g: seq<Row>, i: int, j: int)
    requires IsFrame(g) && FrameInRange(g) && 0 <= i < 8 && 0 <= j < 8
    ensures 0 <= 8 * i + j < 64 && Encode(g)[8 * i + j] == Pack(g[i][j])
  {
    CellOf(i, j);
  }

  /** Reading back what was written gives the quantised frame. */
  lemma DecodeEncode(g: seq<Row>)
    requires IsFrame(g) && FrameInRange(g)
    ensures Decode(Encode(g)) == QuantiseFrame(g)
  {
    var d := Decode(Encode(g));
    forall i, j | 0 <= i < 8 && 0 <= j < 8 ensures d[i][j] == QuantiseFrame(g)[i][j] {
      CellOf(i, j);
      UnpackPack(g[i][j]);
    }
    FrameEq(d, QuantiseFrame(g));
  }

  /** Writing back what was read leaves every cell as it was. */
  lemma EncodeDecode(w: seq<Word>)
    requires |w| == 64
    ensures FrameInRange(Decode(w)) && Encode(Decode(w)) == w
  {
    var d := Decode(w);
    forall n | 0 <= n < 64 ensures Encode(d)[n] == w[n] {
      CellIndex(n);
      PackUnpack(w[8 * (n / 8) + n % 8]);
    }
  }

  lemma QuantisedFrameFixed(g: seq<Row>)
    requires IsFrame(g) && FrameQuantised(g)
    ensures FrameInRange(g) && QuantiseFrame(g) == g
  {
    forall i, j | 0 <= i < 8 && 0 <= j < 8 ensures QuantiseFrame(g)[i][j] == g[i][j] {
      QuantiseFixedPoints(g[i][j]);
    }
    FrameEq(QuantiseFrame(g), g);
  }

  /** The device image set_pixels writes for a frame: the frame turned by the rotation, packed. */
  function DeviceImage(g: seq<Row>, rotation: int): (w: seq<Word>)
    requires IsFrame(g) && FrameInRange(g) && ValidRotation(rotation)
    ensures |w| == 64
  {
    RotKInRange(g, WriteTurns(rotation));
    Encode(RotK(g, WriteTurns(rotation)))
  }

  /** A solid frame, whatever the rotation, fills every device cell with the same word. */
  lemma DeviceImageSolid(c: Pixel, rotation: int)
    requires InRange(c) && ValidRotation(rotation)
    ensures forall n :: 0 <= n < 64 ==> DeviceImage(Solid(c), rotation)[n] == Pack(c)
  {
    RotKSolid(c, WriteTurns(rotation));
    forall n | 0 <= n < 64 ensures Encode(Solid(c))[n] == Pack(c) {
      CellIndex(n);
    }
  }

  /**
   * get_pixels after set_pixels at the same rotation: the device holds the frame
   * turned by WriteTurns, reading turns it back, and only quantisation remains.
   */
  lemma ReadAfterWrite(g: seq<Row>, rotation: int)
    requires IsFrame(g) && FrameInRange(g) && ValidRotation(rotation)
    ensures FrameInRange(RotK(g, WriteTurns(rotation)))
    ensures RotK(Decode(Encode(RotK(g, WriteTurns(rotation)))), ReadTurns(rotation)) == QuantiseFrame(g)
  {
    var k := WriteTurns(rotation);
    RotKInRange(g, k);
    DecodeEncode(RotK(g, k));
    RotKQuantise(g, k);
    RotKAdd(QuantiseFrame(g), k, ReadTurns(rotation));
    if k > 0 {
      RotKInverse(QuantiseFrame(g), k);
    }
  }

  /**
   * Where set_pixels puts logical pixel (x, y) in the device stream. For a nonzero
   * rotation this is not where _xy_rotated points (see BulkAndSingleDisagree).
   */
  function BulkOffset(x: int, y: int, rotation: int): int
    requires ValidRotation(rotation)
  {
    if rotation == 0 then 8 * y + x
    else if rotation == 90 then 8 * (7 - x) + y
    else if rotation == 180 then 63 - 8 * y - x
    else 8 * x + 7 - y
  }

  lemma BulkOffsetPlacement(g: seq<Row>, rotation: int, x: int, y: int)
    requires IsFrame(g) && FrameInRange(g) && ValidRotation(rotation) && OnGrid(x, y)
    ensures 0 <= BulkOffset(x, y, rotation) < 64
    ensures DeviceImage(g, rotation)[BulkOffset(x, y, rotation)] == Pack(g[y][x])
  {
    if rotation == 0 {
      DeviceImageCell(g, rotation, BulkOffset(x, y, rotation), y, x, y, x);
    } else if rotation == 90 {
      assert WriteTurns(rotation) == 1;
      RotCell(g, 1, 7 - x, y, y, x);
      DeviceImageCell(g, rotation, BulkOffset(x, y, rotation), 7 - x, y, y, x);
    } else if rotation == 180 {
      assert WriteTurns(rotation) == 2;
      RotCell(g, 2, 7 - y, 7 - x, y, x);
      DeviceImageCell(g, rotation, BulkOffset(x, y, rotation), 7 - y, 7 - x, y, x);
    } else {
      assert WriteTurns(rotation) == 3;
      RotCell(g, 3, x, 7 - y, y, x);
      DeviceImageCell(g, rotation, BulkOffset(x, y, rotation), x, 7 - y, y, x);
    }
  }

  /** Cell (i, j) of the turned frame lands at offset 8i + j of the device image. */
  lemma DeviceImageCell(g: seq<Row>, rotation: int, n: int, i: int, j: int, y: int, x: int)
    requires IsFrame(g) && FrameInRange(g) && ValidRotation(rotation)
    requires 0 <= i < 8 && 0 <= j < 8 && 0 <= y < 8 && 0 <= x < 8 && n == 8 * i + j
    requires RotK(g, WriteTurns(rotation))[i][j] == g[y][x]
    ensures 0 <= n < 64 && DeviceImage(g, rotation)[n] == Pack(g[y][x])
  {
    RotKInRange(g, WriteTurns(rotation));
    EncodeCell(RotK(g, WriteTurns(rotation)), i, j);
  }

  /**
   * How far _xy_rotated is from where set_pixels puts the same logical pixel:
   * the two agree everywhere at rotation 0, only at (3, 0) at rotation 90,
   * and nowhere at 180 or 270.
   */
  lemma BulkAndSingleDisagree(x: int, y: int)
    requires OnGrid(x, y)
    ensures XyRotated(x, y, 0) == Ok(BulkOffset(x, y, 0))
    ensures XyRotated(x, y, 90) == Ok(64 - BulkOffset(x, y, 90))
    ensures XyRotated(x, y, 180) == Ok(BulkOffset(x, y, 180) + 9)
    ensures XyRotated(x, y, 270) == Ok(71 - BulkOffset(x, y, 270))
    ensures XyRotated(x, y, 90) == Ok(BulkOffset(x, y, 90)) <==> x == 3 && y == 0
    ensures XyRotated(x, y, 180) != Ok(BulkOffset(x, y, 180))
    ensures XyRotated(x, y, 270) != Ok(BulkOffset(x, y, 270))
  {
  }

  // ---------------------------------------------------------------------
  // Reshaping between flat values and frames
  // ---------------------------------------------------------------------

  /**
   * set_pixels first converts its argument to a uint16 array; integer values
   * wrap modulo 2^16 (so the later "min() < 0" test can never fire).
   */
  function ToUint16(values: seq<int>): (u: seq<int>)
    ensures |u| == |values|
    ensures forall k :: 0 <= k < |u| ==> 0 <= u[k] < 0x1_0000 && (u[k] - values[k]) % 0x1_0000 == 0
  {
    seq(|values|, k requires 0 <= k < |values| => values[k] % 0x1_0000)
  }

  lemma ToUint16Identity(values: seq<int>)
    requires forall k :: 0 <= k < |values| ==> 0 <= values[k] < 0x1_0000
    ensures ToUint16(values) == values
  {
  }

  /** set_pixels' checks on the converted values: 192 of them, each at most 255. */
  function CheckPixelList(values: seq<int>): (o: Outcome)
    ensures o.Pass? <==> |values| == 192 && forall k :: 0 <= k < |values| ==> 0 <= values[k] % 0x1_0000 <= 255
    ensures o.Fail? ==> o.error == (if |values| != 192 then PixelListShape else PixelListRange)
  {
    if |values| != 192 then Fail(PixelListShape)
    else if exists k :: 0 <= k < |values| && values[k] % 0x1_0000 > 255 then Fail(PixelListRange)
    else Pass
  }

  /** reshape(8, 8, 3) of 192 values in C order. */
  function Shape(values: seq<int>): (g: seq<Row>)
    requires |values| == 192
    ensures IsFrame(g)
  {
    seq(8, i requires 0 <= i < 8 => seq(8, j requires 0 <= j < 8 =>
      Pixel(values[24 * i + 3 * j], values[24 * i + 3 * j + 1], values[24 * i + 3 * j + 2])))
  }

  function Channel(p: Pixel, c: int): int {
    if c == 0 then p.r else if c == 1 then p.g else p.b
  }

  /** The 192 values of a frame in C order (what numpy hands back to set_pixels). */
  function Channels(g: seq<Row>): (values: seq<int>)
    requires IsFrame(g)
    ensures |values| == 192
  {
    seq(192, k requires 0 <= k < 192 => Channel(g[k / 24][k % 24 / 3], k % 3))
  }

  lemma ChannelIndex(i: int, j: int, c: int)
    requires 0 <= i < 8 && 0 <= j < 8 && 0 <= c < 3
    ensures var k := 24 * i + 3 * j + c; 0 <= k < 192 && k / 24 == i && k % 24 / 3 == j && k % 3 == c
  {
    var k := 24 * i + 3 * j + c;
    assert k % 24 == 3 * j + c;
  }

  lemma IndexChannel(k: int)
    requires 0 <= k < 192
    ensures 0 <= k / 24 < 8 && 0 <= k % 24 / 3 < 8 && 24 * (k / 24) + 3 * (k % 24 / 3) + k % 3 == k
  {
  }

  /** Reshaping a frame's own values gives the frame back. */
  lemma ShapeChannels(g: seq<Row>)
    requires IsFrame(g)
    ensures Shape(Channels(g)) == g
  {
    var s := Shape(Channels(g));
    forall i, j | 0 <= i < 8 && 0 <= j < 8 ensures s[i][j] == g[i][j] {
      ChannelIndex(i, j, 0);
      ChannelIndex(i, j, 1);
      ChannelIndex(i, j, 2);
    }
    FrameEq(s, g);
  }

  /** ... and flattening a shaped stream gives the stream back. */
  lemma ChannelsShape(values: seq<int>)
    requires |values| == 192
    ensures Channels(Shape(values)) == values
  {
    forall k | 0 <= k < 192 ensures Channels(Shape(values))[k] == values[k] {
      IndexChannel(k);
    }
  }

  /** The frame set_pixels draws from a value stream that passed its checks. */
  function Accepted(values: seq<int>): (g: seq<Row>)
    requires |values| == 192 && CheckPixelList(values).Pass?
    ensures IsFrame(g) && FrameInRange(g)
  {
    var g := Shape(ToUint16(values));
    assert FrameInRange(g) by {
      forall i, j | 0 <= i < 8 && 0 <= j < 8 ensures InRange(g[i][j]) {
        ChannelIndex(i, j, 0);
        ChannelIndex(i, j, 1);
        ChannelIndex(i, j, 2);
      }
    }
    g
  }

  /** A frame in range passes set_pixels' checks and is drawn as it is. */
  lemma AcceptFrame(g: seq<Row>)
    requires IsFrame(g) && FrameInRange(g)
    ensures CheckPixelList(Channels(g)) == Pass && Accepted(Channels(g)) == g
  {
    var v := Channels(g);
    forall k | 0 <= k < 192 ensures 0 <= v[k] <= 255 {
      IndexChannel(k);
    }
    ToUint16Identity(v);
    ShapeChannels(g);
  }

  /** A frame with a channel outside 0..255 (and inside uint16) is refused. */
  lemma RefuseFrame(g: seq<Row>, i: int, j: int)
    requires IsFrame(g) && 0 <= i < 8 && 0 <= j < 8
    requires !InRange(g[i][j]) && 0 <= g[i][j].r < 0x1_0000 && 0 <= g[i][j].g < 0x1_0000 && 0 <= g[i][j].b < 0x1_0000
    ensures CheckPixelList(Channels(g)) == Fail(PixelListRange)
  {
    var v := Channels(g);
    ChannelIndex(i, j, 0);
    ChannelIndex(i, j, 1);
    ChannelIndex(i, j, 2);
    assert !(v[24 * i + 3 * j] % 0x1_0000 <= 255 && v[24 * i + 3 * j + 1] % 0x1_0000 <= 255 && v[24 * i + 3 * j + 2] % 0x1_0000 <= 255);
  }

  /** A single cell written at offset 8 * y + x shows at (x, y) and nowhere else. */
  lemma DecodeUpdate(w: seq<Word>, x: int, y: int, p: Pixel)
    requires |w| == 64 && OnGrid(x, y) && InRange(p)
    ensures 0 <= 8 * y + x < 64
    ensures Decode(w[8 * y + x := Pack(p)])[y][x] == Quantise(p)
    ensures forall i, j :: 0 <= i < 8 && 0 <= j < 8 && (i, j) != (y, x) ==>
              Decode(w[8 * y + x := Pack(p)])[i][j] == Decode(w)[i][j]
  {
    UnpackPack(p);
  }

  /** get_pixels' (64, 3) view of a frame. */
  function FlatPixels(g: seq<Row>): (s: seq<Pixel>)
    requires IsFrame(g)
    ensures |s| == 64
    ensures forall i, j :: 0 <= i < 8 && 0 <= j < 8 ==> s[8 * i + j] == g[i][j]
  {
    var s := seq(64, n requires 0 <= n < 64 => g[n / 8][n % 8]);
    assert forall i, j :: 0 <= i < 8 && 0 <= j < 8 ==> s[8 * i + j] == g[i][j] by {
      forall i, j | 0 <= i < 8 && 0 <= j < 8 ensures s[8 * i + j] == g[i][j] {
        CellOf(i, j);
      }
    }
    s
  }

  /** reshape(8, 8, 3) of a (64, 3) array of pixels. */
  function Unflatten(s: seq<Pixel>): (g: seq<Row>)
    requires |s| == 64
    ensures IsFrame(g)
    ensures forall i, j :: 0 <= i < 8 && 0 <= j < 8 ==> g[i][j] == s[8 * i + j]
  {
    seq(8, i requires 0 <= i < 8 => s[8 * i .. 8 * i + 8])
  }

  lemma UnflattenFlat(g: seq<Row>)
    requires IsFrame(g)
    ensures Unflatten(FlatPixels(g)) == g
  {
    FrameEq(Unflatten(FlatPixels(g)), g);
  }

  /** Mirroring keeps a frame quantised. */
  lemma FlipsQuantised(g: seq<Row>)
    requires IsFrame(g) && FrameQuantised(g)
    ensures FrameQuantised(FlipLR(g)) && FrameQuantised(FlipUD(g))
    ensures FrameInRange(FlipLR(g)) && FrameInRange(FlipUD(g))
  {
    assert forall i, j :: 0 <= i < 8 && 0 <= j < 8 ==> FlipUD(g)[i][j] == g[7 - i][j];
  }
}
