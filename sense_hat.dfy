/**
 * The LED-matrix part of the SenseHat object: its rotation, its character
 * table and the frame buffer device it reads and writes. The device is 64
 * RGB565 cells in row-major order; what the viewer sees is that image turned
 * back by the current rotation (Displayed).
 */
module LedMatrix {
  import opened Errors
  import opened Codec
  import opened Rotation
  import opened Frame
  import opened Args
  import opened Glyphs
  import opened Text

  class SenseHat {
    /** The rotation in degrees applied to everything drawn: 0, 90, 180 or 270. */
    var rotation: int
    /** The character table filled by LoadTextAssets. */
    var textDict: map<char, seq<Row>>
    /** The 64 cells of the LED frame buffer device. */
    const fb: array<Word>

    ghost predicate Valid()
      reads this, fb
    {
      fb.Length == 64 && ValidRotation(rotation) && ValidTable(textDict)
    }

    /** The frame as the viewer sees it: the device image read back at the current rotation. */
    ghost function Displayed(): (g: seq<Row>)
      reads this, fb
      requires Valid()
      ensures IsFrame(g) && FrameQuantised(g)
    {
      RotKQuantised(Decode(fb[..]), ReadTurns(rotation));
      RotK(Decode(fb[..]), ReadTurns(rotation))
    }

    /** A matrix on the given device, unrotated, with an empty character table. */
    constructor (device: array<Word>)
      requires device.Length == 64
      ensures Valid() && fb == device && rotation == 0 && textDict == map[]
    {
      rotation := 0;
      textDict := map[];
      fb := device;
    }

    /** get_pixels: the 64 pixels shown, row by row, as RGB565 leaves them. */
    method GetPixels() returns (pixels: seq<Pixel>)
      requires Valid()
      ensures pixels == FlatPixels(Displayed())
      ensures forall n :: 0 <= n < 64 ==> IsQuantised(pixels[n])
    {
      var g := Decode(fb[..]);
      if rotation > 0 {
        g := RotK(g, (360 - rotation) / 90);
      }
      pixels := FlatPixels(g);
      assert g == Displayed();
      forall n | 0 <= n < 64 ensures IsQuantised(pixels[n]) {
        CellIndex(n);
        assert pixels[n] == g[n / 8][n % 8];
      }
    }

    /**
     * set_pixels: check the 192 values, turn the frame by the rotation and
     * write it; the viewer then sees the frame itself, quantised.
     */
    method SetPixels(values: seq<int>) returns (res: Outcome)
      requires Valid()
      modifies fb
      ensures Valid()
      ensures res == CheckPixelList(values)
      ensures res.Fail? ==> fb[..] == old(fb[..])
      ensures res.Pass? ==> fb[..] == DeviceImage(Accepted(values), rotation)
      ensures res.Pass? ==> Displayed() == QuantiseFrame(Accepted(values))
    {
      res := CheckPixelList(values);
      if res.Fail? {
        return;
      }
      var g := Accepted(values);
      if rotation > 0 {
        g := RotK(g, rotation / 90);
      }
      RotKInRange(Accepted(values), WriteTurns(rotation));
      var w := Encode(g);
      forall n | 0 <= n < 64 {
        fb[n] := w[n];
      }
      assert fb[..] == w;
      ReadAfterWrite(Accepted(values), rotation);
    }

    /**
     * set_pixel: validate the request, then write one cell at the offset
     * _xy_rotated computes; an offset past the 64 cells is a failed write.
     */
    method SetPixel(x: int, y: int, args: seq<Arg>) returns (res: Outcome)
      requires Valid()
      modifies fb
      ensures Valid()
      ensures SetPixelRequest(x, y, args).Err? ==>
        res == Fail(SetPixelRequest(x, y, args).error) && fb[..] == old(fb[..])
      ensures SetPixelRequest(x, y, args).Ok? ==>
        var off := XyRotated(x, y, rotation).value;
        if 0 <= off < 64 then res == Pass && fb[..] == old(fb[..])[off := Pack(SetPixelRequest(x, y, args).value)]
        else res == Fail(OutsideDevice) && fb[..] == old(fb[..])
      ensures rotation == 0 && res.Pass? ==>
        Displayed()[y][x] == Quantise(SetPixelRequest(x, y, args).value)
        && forall i, j :: 0 <= i < 8 && 0 <= j < 8 && (i, j) != (y, x) ==> Displayed()[i][j] == old(Displayed())[i][j]
    {
      var request := SetPixelRequest(x, y, args);
      if request.Err? {
        return Fail(request.error);
      }
      var off := XyRotated(x, y, rotation).value;
      if 0 <= off < 64 {
        ghost var before := fb[..];
        fb[off] := Pack(request.value);
        res := Pass;
        if rotation == 0 {
          DecodeUpdate(before, x, y, request.value);
        }
      } else {
        res := Fail(OutsideDevice);
      }
    }

    /**
     * get_pixel: check the coordinates, then read one cell at the offset
     * _xy_rotated computes; a read past the 64 cells finds nothing.
     */
    method GetPixel(x: int, y: int) returns (r: Result<Pixel>)
      requires Valid()
      ensures CheckXY(x, y).Fail? ==> r == Err(CheckXY(x, y).error)
      ensures CheckXY(x, y).Pass? ==>
        var off := XyRotated(x, y, rotation).value;
        r == if 0 <= off < 64 then Ok(Unpack(fb[off])) else Err(OutsideDevice)
      ensures rotation == 0 && OnGrid(x, y) ==> r == Ok(Displayed()[y][x])
    {
      var check := CheckXY(x, y);
      if check.Fail? {
        return Err(check.error);
      }
      var off := XyRotated(x, y, rotation).value;
      if 0 <= off < 64 {
        r := Ok(Unpack(fb[off]));
        if rotation == 0 {
          CellOf(y, x);
        }
      } else {
        r := Err(OutsideDevice);
      }
    }

    /**
     * set_rotation: an angle other than 0, 90, 180 or 270 is refused. With
     * redraw the image is read at the old rotation and written at the new
     * one, so the viewer sees no change; without it the device is untouched.
     */
    method SetRotation(r: int, redraw: bool) returns (res: Outcome)
      requires Valid()
      modifies this`rotation, fb
      ensures Valid()
      ensures res.Pass? <==> ValidRotation(r)
      ensures res.Fail? ==> res.error == BadRotation && rotation == old(rotation) && fb[..] == old(fb[..])
      ensures res.Pass? ==> rotation == r
      ensures res.Pass? && redraw ==> Displayed() == old(Displayed())
      ensures res.Pass? && !redraw ==> fb[..] == old(fb[..])
    {
      if !ValidRotation(r) {
        return Fail(BadRotation);
      }
      if redraw {
        var pixels := GetPixels();
        rotation := r;
        var g := Unflatten(pixels);
        UnflattenFlat(old(Displayed()));
        QuantisedFrameFixed(g);
        AcceptFrame(g);
        var drawn := SetPixels(Channels(g));
      } else {
        rotation := r;
      }
      res := Pass;
    }

    /** flip_h: the shown frame mirrored left to right, redrawn when asked. */
    method FlipH(redraw: bool) returns (flipped: seq<Pixel>)
      requires Valid()
      modifies fb
      ensures Valid()
      ensures flipped == FlatPixels(FlipLR(old(Displayed())))
      ensures redraw ==> Displayed() == FlipLR(old(Displayed()))
      ensures !redraw ==> fb[..] == old(fb[..])
    {
      var pixels := GetPixels();
      var g := Unflatten(pixels);
      UnflattenFlat(Displayed());
      var f := FlipLR(g);
      if redraw {
        FlipsQuantised(g);
        QuantisedFrameFixed(f);
        AcceptFrame(f);
        var drawn := SetPixels(Channels(f));
      }
      flipped := FlatPixels(f);
    }

    /** flip_v: the shown frame mirrored top to bottom, redrawn when asked. */
    method FlipV(redraw: bool) returns (flipped: seq<Pixel>)
      requires Valid()
      modifies fb
      ensures Valid()
      ensures flipped == FlatPixels(FlipUD(old(Displayed())))
      ensures redraw ==> Displayed() == FlipUD(old(Displayed()))
      ensures !redraw ==> fb[..] == old(fb[..])
    {
      var pixels := GetPixels();
      var g := Unflatten(pixels);
      UnflattenFlat(Displayed());
      var f := FlipUD(g);
      if redraw {
        FlipsQuantised(g);
        QuantisedFrameFixed(f);
        AcceptFrame(f);
        var drawn := SetPixels(Channels(f));
      }
      flipped := FlatPixels(f);
    }

    /**
     * clear: fill the matrix with one colour (black by default). The call
     * succeeds exactly when the colour has three values that are pixel values
     * once converted to uint16.
     */
    method Clear(args: seq<Arg>) returns (res: Outcome)
      requires Valid()
      modifies fb
      ensures Valid()
      ensures res.Fail? ==> fb[..] == old(fb[..])
      ensures ClearColour(args).Err? ==> res == Fail(PixelArguments)
      ensures ClearColour(args).Ok? ==>
        var c := ClearColour(args).value;
        (res.Pass? <==> GoodColour(c))
        && (res.Fail? ==> res.error == (if |c| != 3 then PixelListShape else PixelListRange))
        && (res.Pass? ==>
              var p := Pixel(c[0] % 0x1_0000, c[1] % 0x1_0000, c[2] % 0x1_0000);
              InRange(p) && (forall n :: 0 <= n < 64 ==> fb[n] == Pack(p)) && Displayed() == Solid(Quantise(p)))
    {
      var colour := ClearColour(args);
      if colour.Err? {
        return Fail(colour.error);
      }
      ClearFrame(colour.value);
      res := SetPixels(RepeatColour(colour.value));
      if res.Pass? {
        var c := colour.value;
        var p := Pixel(c[0] % 0x1_0000, c[1] % 0x1_0000, c[2] % 0x1_0000);
        QuantiseSolid(p);
        DeviceImageSolid(p, rotation);
      }
    }

    /**
     * _load_text_assets: cut the strip image into 40-pixel blocks and give
     * the i-th character of the text file block i. An image whose size is not
     * a whole number of blocks is refused before the table is touched; a text
     * file with more characters than blocks fails part way, leaving the table
     * built so far.
     */
    method LoadTextAssets(atlas: seq<Pixel>, order: string) returns (res: Outcome)
      requires Valid()
      modifies this`textDict
      ensures Valid()
      ensures |atlas| % 40 != 0 ==> res == Fail(AtlasShape) && textDict == old(textDict)
      ensures |atlas| % 40 == 0 && 40 * |order| <= |atlas| ==> res == Pass && textDict == Table(atlas, order)
      ensures |atlas| % 40 == 0 && 40 * |order| > |atlas| ==>
        res == Fail(AtlasTooShort) && textDict == Table(atlas, order[..|atlas| / 40])
    {
      if |atlas| % 40 != 0 {
        return Fail(AtlasShape);
      }
      textDict := map[];
      var i := 0;
      while i < |order|
        invariant 0 <= i <= |order| && 40 * i <= |atlas|
        invariant textDict == Table(atlas, order[..i])
      {
        if 40 * (i + 1) > |atlas| {
          WholeBlocks(|atlas|, i);
          return Fail(AtlasTooShort);
        }
        TableExtend(atlas, order, i);
        textDict := textDict[order[i] := Block(atlas, i)];
        i := i + 1;
      }
      assert order[..i] == order;
      res := Pass;
    }

    /**
     * The device contents after the first n windows of a strip went through
     * set_pixels: unchanged when n is 0, otherwise window n - 1 at rotation at.
     */
    ghost predicate Drew(strip: seq<Row>, n: nat, at: int, before: seq<Word>, after: seq<Word>)
      requires IsStrip(strip) && n <= |strip| - 8 && ValidRotation(at)
    {
      (n == 0 ==> after == before)
      && (n > 0 ==>
            var last := Window(strip, n - 1);
            CheckPixelList(Channels(last)).Pass? && after == DeviceImage(Accepted(Channels(last)), at))
    }

    /**
     * What the drawing loop of show_message leaves behind: the windows before
     * the first refused one have been drawn, in order, and no other; the
     * outcome is a pass exactly when none was refused; the device holds the
     * last window drawn, at rotation at, or what it held before when none was.
     */
    ghost predicate Scrolled(strip: seq<Row>, shown: seq<seq<Row>>, res: Outcome, at: int, before: seq<Word>)
      reads this, fb
      requires IsStrip(strip) && |strip| > 8 && ValidRotation(at)
    {
      var stop := FirstRefused(strip, 0);
      shown == Windows(strip)[..stop]
      && (res.Pass? <==> stop == |strip| - 8)
      && (res.Fail? ==> res == Fail(PixelListRange))
      && Drew(strip, stop, at, before, fb[..])
    }

    /**
     * show_message: scroll the text through the matrix one row per frame.
     * The rotation is moved a quarter turn back while drawing (the glyphs are
     * stored turned) and restored only when every frame has been drawn.
     */
    method ShowMessage(text: string, fore: Pixel, back: Pixel) returns (shown: seq<seq<Row>>, res: Outcome)
      requires Valid()
      modifies this`rotation, fb
      ensures Valid()
      ensures Strip(textDict, text).Err? ==>
        res == Fail(MissingGlyph) && shown == [] && rotation == TextRotation(old(rotation)) && fb[..] == old(fb[..])
      ensures Strip(textDict, text).Ok? ==>
        var strip := Recolour(Strip(textDict, text).value, fore, back);
        Scrolled(strip, shown, res, TextRotation(old(rotation)), old(fb[..]))
        && (res.Pass? ==> rotation == old(rotation))
        && (res.Fail? ==> rotation == TextRotation(old(rotation)))
        && (InRange(fore) && InRange(back) ==> res.Pass? && Displayed() == Solid(Quantise(back)))
    {
      var previous := rotation;
      rotation := rotation - 90;
      if rotation < 0 {
        rotation := 270;
      }
      assert rotation == TextRotation(previous);
      var built := BuildStrip(textDict, text);
      if built.Err? {
        return [], Fail(MissingGlyph);
      }
      var scroll := built.value;
      var strip := Recolour(scroll, fore, back);
      if InRange(fore) && InRange(back) {
        MessageEndsBlank(textDict, text, fore, back, previous);
      }
      shown, res := Scroll(strip);
      if res.Pass? {
        rotation := previous;
      }
    }

    /**
     * The drawing loop of show_message: each 8-row window of the strip in
     * turn, stopping at the first one set_pixels refuses.
     */
    method Scroll(strip: seq<Row>) returns (shown: seq<seq<Row>>, res: Outcome)
      requires Valid() && IsStrip(strip) && |strip| > 8
      modifies fb
      ensures Valid()
      ensures Scrolled(strip, shown, res, rotation, old(fb[..]))
    {
      shown := [];
      var n := 0;
      while n < |strip| - 8
        invariant 0 <= n <= |strip| - 8 && shown == Windows(strip)[..n]
        invariant FirstRefused(strip, 0) == FirstRefused(strip, n)
        invariant Valid()
        invariant Drew(strip, n, rotation, old(fb[..]), fb[..])
      {
        var window := strip[n .. n + 8];
        FirstRefusedStep(strip, n, window, shown);
        var drawn := SetPixels(Channels(window));
        if drawn.Fail? {
          return shown, drawn;
        }
        shown := shown + [window];
        n := n + 1;
      }
      assert FirstRefused(strip, n) == n;
      res := Pass;
    }

    /**
     * show_letter: draw one character in rows 1 to 5 of an otherwise blank
     * frame, at the rotation moved a quarter turn back. A string longer than
     * one character is refused before anything changes.
     */
    method ShowLetter(s: string, fore: Pixel, back: Pixel) returns (res: Outcome)
      requires Valid()
      modifies this`rotation, fb
      ensures Valid()
      ensures |s| > 1 ==> res == Fail(LetterTooLong) && rotation == old(rotation) && fb[..] == old(fb[..])
      ensures |s| <= 1 && CharPixels(textDict, s).Err? ==>
        res == Fail(MissingGlyph) && rotation == TextRotation(old(rotation)) && fb[..] == old(fb[..])
      ensures |s| <= 1 && CharPixels(textDict, s).Ok? ==>
        var image := Recolour(LetterImage(CharPixels(textDict, s).value), fore, back);
        res == CheckPixelList(Channels(image))
        && (res.Pass? ==>
              rotation == old(rotation) && fb[..] == DeviceImage(Accepted(Channels(image)), TextRotation(old(rotation))))
        && (res.Fail? ==> rotation == TextRotation(old(rotation)) && fb[..] == old(fb[..]))
        && (InRange(fore) && InRange(back) ==> res.Pass? && Displayed() == RotK(QuantiseFrame(image), 3))
    {
      if |s| > 1 {
        return Fail(LetterTooLong);
      }
      var previous := rotation;
      rotation := rotation - 90;
      if rotation < 0 {
        rotation := 270;
      }
      assert rotation == TextRotation(previous);
      var glyph := CharPixels(textDict, s);
      if glyph.Err? {
        return Fail(MissingGlyph);
      }
      var image := Recolour(LetterImage(glyph.value), fore, back);
      if InRange(fore) && InRange(back) {
        RecolourFrame(LetterImage(glyph.value), fore, back);
        LetterAfterText(image, previous);
      }
      res := SetPixels(Channels(image));
      if res.Pass? {
        rotation := previous;
      }
    }
  }

  /**
   * The loop of show_message that lays out the glyphs: the padding, each
   * character's trimmed glyph with a blank row after it, the padding.
   */
  method BuildStrip(table: map<char, seq<Row>>, text: string) returns (r: Result<seq<Row>>)
    requires ValidTable(table)
    ensures r == Strip(table, text)
  {
    var scroll := Blank(8);
    ghost var body: seq<Row> := [];
    var i := 0;
    while i < |text|
      invariant 0 <= i <= |text|
      invariant Body(table, text[..i]) == Ok(body) && scroll == Blank(8) + body
    {
      var glyph := CharPixels(table, [text[i]]);
      if glyph.Err? {
        BodyMissing(table, text, i);
        return Err(MissingGlyph);
      }
      BodyExtend(table, text, i);
      var trimmed := TrimWhitespace(glyph.value);
      AppendRows(Blank(8), body, trimmed, Blank(1));
      body := body + trimmed + Blank(1);
      scroll := scroll + trimmed + Blank(1);
      i := i + 1;
    }
    assert text[..i] == text;
    r := Ok(scroll + Blank(8));
  }

  /** Appending to the strip after the padding appends to the body. */
  lemma AppendRows(pad: seq<Row>, body: seq<Row>, glyph: seq<Row>, gap: seq<Row>)
    ensures pad + body + glyph + gap == pad + (body + glyph + gap)
  {
  }

  /**
   * After show_message has drawn every frame with in-range colours and put
   * the rotation back, the viewer sees the plain back colour.
   */
  lemma MessageEndsBlank(table: map<char, seq<Row>>, text: string, fore: Pixel, back: Pixel, rotation: int)
    requires ValidTable(table) && Strip(table, text).Ok? && InRange(fore) && InRange(back) && ValidRotation(rotation)
    ensures var strip := Recolour(Strip(table, text).value, fore, back);
      var last := Window(strip, |strip| - 9);
      FirstRefused(strip, 0) == |strip| - 8
      && CheckPixelList(Channels(last)).Pass?
      && RotK(Decode(DeviceImage(Accepted(Channels(last)), TextRotation(rotation))), ReadTurns(rotation)) == Solid(Quantise(back))
  {
    MessageDrawnWhole(Strip(table, text).value, fore, back);
    LastWindowBlank(table, text, fore, back);
    BlankAfterText(back, rotation);
  }

  /**
   * A frame of the back colour written at the text rotation is seen in the
   * back colour at the caller's rotation.
   */
  lemma BlankAfterText(back: Pixel, rotation: int)
    requires InRange(back) && ValidRotation(rotation)
    ensures CheckPixelList(Channels(Solid(back))) == Pass && Accepted(Channels(Solid(back))) == Solid(back)
    ensures RotK(Decode(DeviceImage(Solid(back), TextRotation(rotation))), ReadTurns(rotation)) == Solid(Quantise(back))
  {
    AcceptFrame(Solid(back));
    RotKSolid(back, WriteTurns(TextRotation(rotation)));
    DecodeEncode(Solid(back));
    QuantiseSolid(back);
    RotKSolid(Quantise(back), ReadTurns(rotation));
  }

  /**
   * An in-range frame written at the text rotation is seen turned three
   * quarter turns at the caller's rotation.
   */
  lemma LetterAfterText(image: seq<Row>, rotation: int)
    requires IsFrame(image) && FrameInRange(image) && ValidRotation(rotation)
    ensures CheckPixelList(Channels(image)) == Pass && Accepted(Channels(image)) == image
    ensures RotK(Decode(DeviceImage(image, TextRotation(rotation))), ReadTurns(rotation)) == RotK(QuantiseFrame(image), 3)
  {
    var w := WriteTurns(TextRotation(rotation));
    AcceptFrame(image);
    RotKInRange(image, w);
    DecodeEncode(RotK(image, w));
    RotKQuantise(image, w);
    RotKAdd(QuantiseFrame(image), w, ReadTurns(rotation));
    TextTurns(rotation);
  }}
