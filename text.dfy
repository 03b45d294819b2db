/**
 * The pixel strips drawn by show_message and show_letter: trimmed glyphs laid
 * one after another with a blank row after each and 8 blank rows at either
 * end, recoloured, and cut into the 8-row windows that are shown in turn.
 */
module Text {
  import opened Errors
  import opened Codec
  import opened Frame
  import opened Glyphs

  /** Rows of 8 pixels each. */
  predicate IsStrip(s: seq<Row>) {
    forall k :: 0 <= k < |s| ==> |s[k]| == 8
  }

  const Black := Pixel(0, 0, 0)

  /** n rows of black padding. */
  function Blank(n: nat): (s: seq<Row>)
    ensures |s| == n && IsStrip(s)
    ensures forall k, j :: 0 <= k < n && 0 <= j < 8 ==> s[k][j] == Black
  {
    seq(n, k => seq(8, j => Black))
  }

  /** A drawn pixel of the glyph image: one with any channel at 255. */
  predicate Lit(p: Pixel): (l: bool)
    ensures p == Pixel(255, 255, 255) ==> l
    ensures p == Black ==> !l
    ensures l ==> !IsQuantised(p)
  {
    p.r == 255 || p.g == 255 || p.b == 255
  }

  /** Drawn pixels take the text colour, every other pixel the back colour. */
  function Recolour(s: seq<Row>, text: Pixel, back: Pixel): (t: seq<Row>)
    ensures |t| == |s|
    ensures forall k :: 0 <= k < |s| ==> |t[k]| == |s[k]|
    ensures forall k, j :: 0 <= k < |s| && 0 <= j < |s[k]| ==> t[k][j] == (if Lit(s[k][j]) then text else back)
  {
    seq(|s|, k requires 0 <= k < |s| => seq(|s[k]|, j requires 0 <= j < |s[k]| => if Lit(s[k][j]) then text else back))
  }

  /** The glyph rows of a message: each character's trimmed glyph followed by one blank row. */
  function Body(table: map<char, seq<Row>>, text: string): (r: Result<seq<Row>>)
    requires ValidTable(table)
    ensures r.Ok? ==> IsStrip(r.value)
    ensures r.Err? ==> r.error == MissingGlyph
  {
    if |text| == 0 then Ok([])
    else match Body(table, text[..|text| - 1])
      case Err(e) => Err(e)
      case Ok(rows) =>
        match CharPixels(table, [text[|text| - 1]])
        case Err(e) => Err(e)
        case Ok(glyph) =>
          TrimmedIsTightSlice(glyph);
          Ok(rows + Trimmed(glyph) + Blank(1))
  }

  /** Every character can be drawn when '?' has a glyph or every character has its own. */
  lemma {:induction false} BodyOk(table: map<char, seq<Row>>, text: string)
    requires ValidTable(table)
    ensures Body(table, text).Ok? <==> '?' in table || forall k :: 0 <= k < |text| ==> text[k] in table
  {
    if |text| > 0 {
      var p := text[..|text| - 1];
      BodyOk(table, p);
      BodyStep(table, text);
      ListedStep(table, text, p);
    }
  }

  /** Every character of a non-empty text is listed iff those before the last are and the last is. */
  lemma ListedStep(table: map<char, seq<Row>>, text: string, p: string)
    requires |text| > 0 && p == text[..|text| - 1]
    ensures (forall k :: 0 <= k < |text| ==> text[k] in table) <==>
      (forall k :: 0 <= k < |p| ==> p[k] in table) && text[|text| - 1] in table
  {
    assert forall k :: 0 <= k < |p| ==> p[k] == text[k];
  }

  /** The body of a non-empty text exists iff the body of all but its last character does and that character can be drawn. */
  lemma BodyStep(table: map<char, seq<Row>>, text: string)
    requires ValidTable(table) && |text| > 0
    ensures Body(table, text).Ok? <==>
      Body(table, text[..|text| - 1]).Ok? && (text[|text| - 1] in table || '?' in table)
  {
    assert CharPixels(table, [text[|text| - 1]]).Ok? <==> text[|text| - 1] in table || '?' in table;
  }

  /** One more character appends its trimmed glyph and a blank row to the body. */
  lemma BodyExtend(table: map<char, seq<Row>>, text: string, i: nat)
    requires ValidTable(table) && i < |text| && Body(table, text[..i]).Ok?
    requires CharPixels(table, [text[i]]).Ok?
    ensures IsGlyph(CharPixels(table, [text[i]]).value)
    ensures Body(table, text[..i + 1])
      == Ok(Body(table, text[..i]).value + Trimmed(CharPixels(table, [text[i]]).value) + Blank(1))
  {
    assert text[..i + 1][..i] == text[..i];
  }

  /** A character with no glyph of its own, and no '?' to stand in, spoils the whole body. */
  lemma BodyMissing(table: map<char, seq<Row>>, text: string, i: nat)
    requires ValidTable(table) && i < |text| && CharPixels(table, [text[i]]).Err?
    ensures Body(table, text).Err?
  {
    BodyOk(table, text);
  }

  /** Each character takes 2 to 6 rows: 1 to 5 glyph rows and a blank row. */
  lemma {:induction false} BodyHeight(table: map<char, seq<Row>>, text: string)
    requires ValidTable(table) && Body(table, text).Ok?
    ensures 2 * |text| <= |Body(table, text).value| <= 6 * |text|
  {
    if |text| > 0 {
      BodyHeight(table, text[..|text| - 1]);
      var glyph := CharPixels(table, [text[|text| - 1]]).value;
      TrimmedIsTightSlice(glyph);
    }
  }

  /** The rows a message's characters take: each trimmed glyph and the blank row after it. */
  function TextRows(table: map<char, seq<Row>>, text: string): nat
    requires ValidTable(table)
  {
    if |text| == 0 then 0
    else
      var rows := match CharPixels(table, [text[|text| - 1]])
        case Ok(glyph) => |Trimmed(glyph)| + 1
        case Err(_) => 0;
      TextRows(table, text[..|text| - 1]) + rows
  }

  /** The strip is 8 + the characters' rows + 8 rows high. */
  lemma {:induction false} StripHeight(table: map<char, seq<Row>>, text: string)
    requires ValidTable(table)
    ensures Strip(table, text).Ok? ==> |Strip(table, text).value| == 16 + TextRows(table, text)
  {
    if |text| > 0 {
      StripHeight(table, text[..|text| - 1]);
    }
  }

  /** The scroll strip: 8 blank rows, the body, 8 blank rows. */
  function Strip(table: map<char, seq<Row>>, text: string): (r: Result<seq<Row>>)
    requires ValidTable(table)
    ensures r.Ok? ==> IsStrip(r.value) && |r.value| >= 16
    ensures r.Ok? <==> Body(table, text).Ok?
  {
    match Body(table, text)
    case Err(e) => Err(e)
    case Ok(rows) => Ok(Blank(8) + rows + Blank(8))
  }

  /** Rows n to n + 7 of the strip: scroll_pixels[n:n+8]. */
  function Window(s: seq<Row>, n: nat): (w: seq<Row>)
    requires IsStrip(s) && n + 8 <= |s|
    ensures IsFrame(w) && w == s[n .. n + 8]
  {
    s[n .. n + 8]
  }

  /** The frames show_message draws: every 8-row window, top to bottom. */
  function Windows(s: seq<Row>): (w: seq<seq<Row>>)
    requires IsStrip(s) && |s| >= 8
    ensures |w| == |s| - 8
    ensures forall i :: 0 <= i < |w| ==> IsFrame(w[i]) && w[i] == s[i .. i + 8] && w[i] == Window(s, i)
  {
    seq(|s| - 8, i requires 0 <= i < |s| - 8 => Window(s, i))
  }

  /** Consecutive frames scroll the strip by exactly one row. */
  lemma WindowsScroll(s: seq<Row>, i: nat)
    requires IsStrip(s) && |s| >= 8 && i + 1 < |s| - 8
    ensures Windows(s)[i + 1][..7] == Windows(s)[i][1..]
  {
  }

  /**
   * A message of n characters scrolls through between 8 + 2n and 8 + 6n frames,
   * the first and the last of them entirely in the back colour.
   */
  lemma MessageFrames(table: map<char, seq<Row>>, text: string, fore: Pixel, back: Pixel)
    requires ValidTable(table) && Strip(table, text).Ok?
    ensures var w := Windows(Recolour(Strip(table, text).value, fore, back));
      8 + 2 * |text| <= |w| <= 8 + 6 * |text|
      && w[0] == Solid(back) && w[|w| - 1] == Solid(back)
  {
    var s := Strip(table, text).value;
    BodyHeight(table, text);
    StripEnds(table, text);
    BlankWindow(s, fore, back, 0);
    BlankWindow(s, fore, back, |s| - 9);
  }

  /** The strip's first 8 rows and its last 9 (the gap after the last character and the padding) are black. */
  lemma StripEnds(table: map<char, seq<Row>>, text: string)
    requires ValidTable(table) && Strip(table, text).Ok?
    ensures var s := Strip(table, text).value;
      forall k, j :: (0 <= k < 8 || |s| - 9 <= k < |s|) && 0 <= j < 8 ==> s[k][j] == Black
  {
    var s := Strip(table, text).value;
    var b := Body(table, text).value;
    assert s == Blank(8) + b + Blank(8);
    if |text| > 0 {
      var p := text[..|text| - 1];
      var glyph := CharPixels(table, [text[|text| - 1]]).value;
      assert b == Body(table, p).value + Trimmed(glyph) + Blank(1);
      assert s[|s| - 9] == Blank(1)[0];
    }
  }

  /** A window whose rows hold no drawn pixel is recoloured to the plain back colour. */
  lemma BlankWindow(s: seq<Row>, fore: Pixel, back: Pixel, n: nat)
    requires IsStrip(s) && n + 8 <= |s|
    requires forall k, j :: n <= k < n + 8 && 0 <= j < 8 ==> !Lit(s[k][j])
    ensures Recolour(s, fore, back)[n .. n + 8] == Solid(back)
  {
    var w := Recolour(s, fore, back)[n .. n + 8];
    forall k, j | 0 <= k < 8 && 0 <= j < 8 ensures w[k][j] == back {
      assert w[k] == Recolour(s, fore, back)[n + k];
    }
    FrameEq(w, Solid(back));
  }

  /** show_letter's frame: a blank row, the glyph in rows 1 to 5, two blank rows. */
  function LetterImage(glyph: seq<Row>): (g: seq<Row>)
    requires IsGlyph(glyph)
    ensures IsFrame(g)
    ensures forall j :: 0 <= j < 8 ==> g[0][j] == Black && g[6][j] == Black && g[7][j] == Black
    ensures forall k :: 1 <= k < 6 ==> g[k] == glyph[k - 1]
  {
    Blank(1) + glyph + Blank(2)
  }

  /** Recolouring a frame leaves a frame holding only the two colours. */
  lemma RecolourFrame(g: seq<Row>, fore: Pixel, back: Pixel)
    requires IsFrame(g)
    ensures IsFrame(Recolour(g, fore, back))
    ensures FrameInRange(Recolour(g, fore, back)) <== InRange(fore) && InRange(back)
    ensures forall i, j :: 0 <= i < 8 && 0 <= j < 8 ==> Recolour(g, fore, back)[i][j] in {fore, back}
  {
  }

  /**
   * Where the drawing loop of show_message stops: the first window from n on
   * that set_pixels refuses, or the number of windows when none is refused.
   */
  function FirstRefused(s: seq<Row>, n: nat): (f: nat)
    requires IsStrip(s) && |s| >= 8 && n <= |s| - 8
    ensures n <= f <= |s| - 8
    decreases |s| - 8 - n
  {
    if n == |s| - 8 then n
    else if CheckPixelList(Channels(Window(s, n))).Fail? then n
    else FirstRefused(s, n + 1)
  }

  /**
   * Every window before the stopping point passes the checks, the window at it
   * is refused, and the loop runs to the end when no window is refused.
   */
  /** One step of the drawing loop: a refused window stops it, a drawn one moves it on. */
  lemma FirstRefusedStep(s: seq<Row>, n: nat, w: seq<Row>, shown: seq<seq<Row>>)
    requires IsStrip(s) && |s| >= 8 && n < |s| - 8 && w == s[n .. n + 8]
    requires shown == Windows(s)[..n]
    ensures w == Window(s, n)
    ensures CheckPixelList(Channels(w)).Fail? ==> FirstRefused(s, n) == n
    ensures CheckPixelList(Channels(w)).Pass? ==>
      FirstRefused(s, n) == FirstRefused(s, n + 1) && shown + [w] == Windows(s)[..n + 1]
  {
    assert Windows(s)[..n + 1] == Windows(s)[..n] + [Windows(s)[n]];
  }

  lemma {:induction false} FirstRefusedSpec(s: seq<Row>, n: nat)
    requires IsStrip(s) && |s| >= 8 && n <= |s| - 8
    ensures forall i :: n <= i < FirstRefused(s, n) ==> CheckPixelList(Channels(Window(s, i))).Pass?
    ensures FirstRefused(s, n) < |s| - 8 ==> CheckPixelList(Channels(Window(s, FirstRefused(s, n)))).Fail?
    ensures (forall i :: n <= i < |s| - 8 ==> CheckPixelList(Channels(Window(s, i))).Pass?) ==>
      FirstRefused(s, n) == |s| - 8
    decreases |s| - 8 - n
  {
    if n < |s| - 8 && CheckPixelList(Channels(Window(s, n))).Pass? {
      var f := FirstRefused(s, n + 1);
      assert FirstRefused(s, n) == f;
      FirstRefusedSpec(s, n + 1);
      forall i | n <= i < f
        ensures CheckPixelList(Channels(Window(s, i))).Pass?
      {
        if i > n {
          assert n + 1 <= i < f;
        }
      }
    }
  }

  /** Every window of a strip recoloured with in-range colours passes set_pixels' checks. */
  lemma WindowsPass(s: seq<Row>, fore: Pixel, back: Pixel)
    requires IsStrip(s) && |s| >= 8 && InRange(fore) && InRange(back)
    ensures forall i :: 0 <= i < |s| - 8 ==> CheckPixelList(Channels(Window(Recolour(s, fore, back), i))) == Pass
  {
    forall i | 0 <= i < |s| - 8
      ensures CheckPixelList(Channels(Window(Recolour(s, fore, back), i))) == Pass
    {
      RecolouredWindow(s, fore, back, i);
    }
  }

  /** With in-range colours the drawing loop of show_message runs through every window. */
  lemma MessageDrawnWhole(s: seq<Row>, fore: Pixel, back: Pixel)
    requires IsStrip(s) && |s| >= 8 && InRange(fore) && InRange(back)
    ensures FirstRefused(Recolour(s, fore, back), 0) == |s| - 8
  {
    WindowsPass(s, fore, back);
    FirstRefusedSpec(Recolour(s, fore, back), 0);
  }

  /** The last window of a message is the plain back colour. */
  lemma LastWindowBlank(table: map<char, seq<Row>>, text: string, fore: Pixel, back: Pixel)
    requires ValidTable(table) && Strip(table, text).Ok?
    ensures var strip := Recolour(Strip(table, text).value, fore, back);
      Window(strip, |strip| - 9) == Solid(back)
  {
    MessageFrames(table, text, fore, back);
  }

  /** A window of a strip recoloured with two pixel colours passes set_pixels' checks unchanged. */
  lemma RecolouredWindow(s: seq<Row>, fore: Pixel, back: Pixel, n: nat)
    requires IsStrip(s) && n + 8 <= |s|
    ensures IsFrame(Recolour(s, fore, back)[n .. n + 8])
    ensures InRange(fore) && InRange(back) ==>
      var w := Recolour(s, fore, back)[n .. n + 8];
      FrameInRange(w) && CheckPixelList(Channels(w)) == Pass && Accepted(Channels(w)) == w
  {
    var c := Recolour(s, fore, back);
    var w := c[n .. n + 8];
    assert forall i :: 0 <= i < 8 ==> w[i] == c[n + i];
    if InRange(fore) && InRange(back) {
      assert FrameInRange(w) by {
        forall i, j | 0 <= i < 8 && 0 <= j < 8 ensures InRange(w[i][j]) {
          assert w[i][j] == c[n + i][j];
        }
      }
      AcceptFrame(w);
    }
  }
}
