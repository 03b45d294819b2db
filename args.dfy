/**
 * The positional colour arguments of set_pixel and clear. A call passes
 * either a single (r, g, b) sequence or three separate numbers; an argument
 * is therefore a number or a sequence of numbers.
 */
module Args {
  import opened Errors
  import opened Codec
  import opened Frame
  import opened Rotation

  datatype Arg = Num(n: int) | Tuple(items: seq<int>)

  /** The numbers an argument contributes to a numpy array built from it. */
  function Values(a: Arg): (v: seq<int>)
    ensures a.Num? ==> v == [a.n]
  {
    match a
    case Num(n) => [n]
    case Tuple(items) => items
  }

  /**
   * set_pixel's choice of pixel: one argument of length 3, or three arguments.
   * len() of a plain number raises TypeError.
   */
  function PixelArgs(args: seq<Arg>): (r: Result<seq<Arg>>)
    ensures r.Ok? ==> |r.value| == 3
    ensures r.Ok? <==> |args| == 3 || (|args| == 1 && args[0].Tuple? && |args[0].items| == 3)
    ensures r.Ok? && |args| == 1 ==> forall k :: 0 <= k < 3 ==> r.value[k] == Num(args[0].items[k])
    ensures |args| == 3 ==> r == Ok(args)
    ensures r.Err? ==> r.error == (if |args| == 1 && args[0].Num? then ArgumentType else PixelArguments)
  {
    if |args| == 1 then
      match args[0]
      case Num(_) => Err(ArgumentType)
      case Tuple(t) => if |t| != 3 then Err(PixelArguments) else Ok([Num(t[0]), Num(t[1]), Num(t[2])])
    else if |args| == 3 then Ok(args)
    else Err(PixelArguments)
  }

  predicate GoodElement(a: Arg) {
    a.Num? && 0 <= a.n <= 255
  }

  /**
   * The element loop of set_pixel, in order: comparing a sequence with 255
   * raises TypeError, a number outside 0..255 raises ValueError.
   */
  function CheckElements(pixel: seq<Arg>): (o: Outcome)
    ensures o.Pass? <==> forall k :: 0 <= k < |pixel| ==> GoodElement(pixel[k])
    ensures o.Fail? ==> exists k :: 0 <= k < |pixel| && !GoodElement(pixel[k])
                          && (forall m :: 0 <= m < k ==> GoodElement(pixel[m]))
                          && o.error == (if pixel[k].Tuple? then ArgumentType else ElementOutOfRange)
  {
    if |pixel| == 0 then Pass
    else if pixel[0].Tuple? then Fail(ArgumentType)
    else if pixel[0].n > 255 || pixel[0].n < 0 then Fail(ElementOutOfRange)
    else
      var rest := CheckElements(pixel[1..]);
      assert forall k :: 1 <= k < |pixel| ==> pixel[k] == pixel[1..][k - 1];
      if rest.Fail? then
        ghost var k :| 0 <= k < |pixel[1..]| && !GoodElement(pixel[1..][k])
                       && (forall m :: 0 <= m < k ==> GoodElement(pixel[1..][m]))
                       && rest.error == (if pixel[1..][k].Tuple? then ArgumentType else ElementOutOfRange);
        assert !GoodElement(pixel[k + 1]);
        rest
      else rest
  }

  /**
   * Validation of set_pixel(x, y, *args) in the order the source performs it:
   * argument shape, then x, then y, then each element.
   */
  function SetPixelRequest(x: int, y: int, args: seq<Arg>): (r: Result<Pixel>)
    ensures r.Ok? <==> PixelArgs(args).Ok? && OnGrid(x, y)
                       && forall k :: 0 <= k < 3 ==> GoodElement(PixelArgs(args).value[k])
    ensures r.Ok? ==> InRange(r.value)
                      && [Num(r.value.r), Num(r.value.g), Num(r.value.b)] == PixelArgs(args).value
    ensures r.Err? && PixelArgs(args).Err? ==> r.error == PixelArgs(args).error
    ensures r.Err? && PixelArgs(args).Ok? && !(0 <= x <= 7) ==> r.error == XOutOfRange
    ensures r.Err? && PixelArgs(args).Ok? && 0 <= x <= 7 && !(0 <= y <= 7) ==> r.error == YOutOfRange
    ensures r.Err? && PixelArgs(args).Ok? && OnGrid(x, y) ==> r.error == CheckElements(PixelArgs(args).value).error
  {
    match PixelArgs(args)
    case Err(e) => Err(e)
    case Ok(pixel) =>
      if x > 7 || x < 0 then Err(XOutOfRange)
      else if y > 7 || y < 0 then Err(YOutOfRange)
      else match CheckElements(pixel)
        case Fail(e) => Err(e)
        case Pass => Ok(Pixel(pixel[0].n, pixel[1].n, pixel[2].n))
  }

  /** get_pixel's coordinate checks. */
  function CheckXY(x: int, y: int): (o: Outcome)
    ensures o.Pass? <==> OnGrid(x, y)
    ensures o.Fail? ==> o.error == (if 0 <= x <= 7 then YOutOfRange else XOutOfRange)
  {
    if x > 7 || x < 0 then Fail(XOutOfRange)
    else if y > 7 || y < 0 then Fail(YOutOfRange)
    else Pass
  }

  /**
   * The colour clear() passes on: black with no argument, the argument itself
   * with one, the three arguments with three. numpy flattens sequence
   * arguments, so the colour is the concatenation of their values.
   */
  function ClearColour(args: seq<Arg>): (r: Result<seq<int>>)
    ensures r.Err? <==> |args| != 0 && |args| != 1 && |args| != 3
    ensures r.Err? ==> r.error == PixelArguments
    ensures |args| == 0 ==> r == Ok([0, 0, 0])
    ensures |args| == 1 ==> r == Ok(Values(args[0]))
    ensures |args| == 3 ==> r == Ok(Values(args[0]) + Values(args[1]) + Values(args[2]))
    ensures |args| == 3 && args[0].Num? && args[1].Num? && args[2].Num? ==> r.Ok? && r.value == [args[0].n, args[1].n, args[2].n]
  {
    if |args| == 0 then Ok([0, 0, 0])
    else if |args| == 1 then Ok(Values(args[0]))
    else if |args| == 3 then
      var v := Values(args[0]) + Values(args[1]) + Values(args[2]);
      assert args[0].Num? && args[1].Num? && args[2].Num? ==> v == [args[0].n, args[1].n, args[2].n];
      Ok(v)
    else Err(PixelArguments)
  }

  /** n copies of a colour, one after another. */
  function Repeat(colour: seq<int>, n: nat): (v: seq<int>)
    ensures |v| == n * |colour|
  {
    if n == 0 then [] else Repeat(colour, n - 1) + colour
  }

  /** The value stream of [colour] * 64. */
  function RepeatColour(colour: seq<int>): (v: seq<int>)
    ensures |v| == 64 * |colour|
  {
    Repeat(colour, 64)
  }

  /** Value k of n copies of a three-value colour is channel k % 3. */
  lemma {:induction false} RepeatAt(colour: seq<int>, n: nat, k: int)
    requires |colour| == 3 && 0 <= k < 3 * n
    ensures Repeat(colour, n)[k] == colour[k % 3]
  {
    if k < 3 * (n - 1) {
      RepeatAt(colour, n - 1, k);
    }
  }

  /** A colour of three values that wrap into 0..255. */
  predicate GoodColour(colour: seq<int>) {
    |colour| == 3 && forall c :: 0 <= c < 3 ==> 0 <= colour[c] % 0x1_0000 <= 255
  }

  /**
   * clear's colour passes set_pixels' checks exactly when it has three values
   * that are pixel values once converted to uint16; the frame is then solid.
   */
  lemma ClearFrame(colour: seq<int>)
    ensures CheckPixelList(RepeatColour(colour)).Pass? <==> GoodColour(colour)
    ensures GoodColour(colour) ==>
      Accepted(RepeatColour(colour)) == Solid(Pixel(colour[0] % 0x1_0000, colour[1] % 0x1_0000, colour[2] % 0x1_0000))
  {
    var v := RepeatColour(colour);
    if |colour| == 3 {
      forall k | 0 <= k < 192 ensures v[k] == colour[k % 3] {
        RepeatAt(colour, 64, k);
      }
      if GoodColour(colour) {
        var g := Accepted(v);
        var s := Solid(Pixel(colour[0] % 0x1_0000, colour[1] % 0x1_0000, colour[2] % 0x1_0000));
        forall i, j | 0 <= i < 8 && 0 <= j < 8 ensures g[i][j] == s[i][j] {
          ChannelIndex(i, j, 0);
          ChannelIndex(i, j, 1);
          ChannelIndex(i, j, 2);
        }
        FrameEq(g, s);
      } else {
        var c :| 0 <= c < 3 && !(0 <= colour[c] % 0x1_0000 <= 255);
        RepeatAt(colour, 64, c);
      }
    }
  }
}
