/**
 * The character table used by show_message and show_letter: 5 x 8 glyphs cut
 * from a strip image, looked up by character with '?' as the fallback, and
 * trimmed of blank rows before they are laid out.
 */
module Glyphs {
  import opened Errors
  import opened Codec
  import opened Frame

  /** A glyph is 5 rows of 8 pixels (the strip image holds them turned a quarter). */
  predicate IsGlyph(g: seq<Row>) {
    |g| == 5 && forall k :: 0 <= k < 5 ==> |g[k]| == 8
  }

  predicate ValidTable(table: map<char, seq<Row>>) {
    forall c :: c in table ==> IsGlyph(table[c])
  }

  /** Block i of reshape(-1, 5, 8, 3): the 40 pixels from 40 * i on. */
  function Block(atlas: seq<Pixel>, i: nat): (g: seq<Row>)
    requires 40 * (i + 1) <= |atlas|
    ensures IsGlyph(g)
    ensures forall k, j :: 0 <= k < 5 && 0 <= j < 8 ==> g[k][j] == atlas[40 * i + 8 * k + j]
  {
    seq(5, k requires 0 <= k < 5 => atlas[40 * i + 8 * k .. 40 * i + 8 * k + 8])
  }

  /**
   * The dictionary _load_text_assets builds from the first |order| blocks:
   * the i-th character of the text file maps to block i, a later repetition
   * of a character overriding an earlier one.
   */
  function Table(atlas: seq<Pixel>, order: seq<char>): (t: map<char, seq<Row>>)
    requires 40 * |order| <= |atlas|
    ensures ValidTable(t)
    ensures forall c :: c in t <==> c in order
  {
    if |order| == 0 then map[]
    else Table(atlas, order[..|order| - 1])[order[|order| - 1] := Block(atlas, |order| - 1)]
  }

  /** Loading one more character of the text file adds its block to the table. */
  lemma TableExtend(atlas: seq<Pixel>, order: seq<char>, i: nat)
    requires i < |order| && 40 * (i + 1) <= |atlas|
    ensures Table(atlas, order[..i + 1]) == Table(atlas, order[..i])[order[i] := Block(atlas, i)]
  {
    assert order[..i + 1][..i] == order[..i];
  }

  /** The image runs out exactly after its last whole block. */
  lemma WholeBlocks(size: nat, i: nat)
    requires size % 40 == 0 && 40 * i <= size < 40 * (i + 1)
    ensures i == size / 40
  {
  }

  /** The glyph of a character is the block of its last occurrence in the text file. */
  lemma {:induction false} TableAt(atlas: seq<Pixel>, order: seq<char>, i: nat)
    requires 40 * |order| <= |atlas| && i < |order|
    requires forall m :: i < m < |order| ==> order[m] != order[i]
    ensures order[i] in Table(atlas, order) && Table(atlas, order)[order[i]] == Block(atlas, i)
  {
    if i < |order| - 1 {
      var p := order[..|order| - 1];
      assert p[i] == order[i];
      TableAt(atlas, p, i);
    }
  }

  /**
   * _get_char_pixels: the glyph of a one-character string that has one,
   * otherwise the glyph of '?', which must exist.
   */
  function CharPixels(table: map<char, seq<Row>>, s: string): (r: Result<seq<Row>>)
    ensures |s| == 1 && s[0] in table ==> r == Ok(table[s[0]])
    ensures !(|s| == 1 && s[0] in table) && '?' in table ==> r == Ok(table['?'])
    ensures r.Err? <==> !(|s| == 1 && s[0] in table) && '?' !in table
    ensures r.Err? ==> r.error == MissingGlyph
    ensures ValidTable(table) && r.Ok? ==> IsGlyph(r.value)
  {
    if |s| == 1 && s[0] in table then Ok(table[s[0]])
    else if '?' in table then Ok(table['?'])
    else Err(MissingGlyph)
  }

  /** A character that is listed in the text file draws the block of its last occurrence. */
  lemma LookupAfterLoad(atlas: seq<Pixel>, order: seq<char>, i: nat)
    requires 40 * |order| <= |atlas| && i < |order|
    requires forall m :: i < m < |order| ==> order[m] != order[i]
    ensures CharPixels(Table(atlas, order), [order[i]]) == Ok(Block(atlas, i))
  {
    TableAt(atlas, order, i);
  }

  /** A character absent from the text file draws the '?' glyph. */
  lemma LookupFallback(atlas: seq<Pixel>, order: seq<char>, c: char, q: nat)
    requires 40 * |order| <= |atlas| && q < |order| && order[q] == '?'
    requires forall m :: q < m < |order| ==> order[m] != '?'
    requires c !in order
    ensures CharPixels(Table(atlas, order), [c]) == Ok(Block(atlas, q))
  {
    TableAt(atlas, order, q);
  }

  // ---------------------------------------------------------------------
  // _trim_whitespace
  // ---------------------------------------------------------------------

  function PixelSum(p: Pixel): int {
    p.r + p.g + p.b
  }

  /** char[k].sum(): the sum of every channel of a row. */
  function RowSum(row: Row): (s: int)
    ensures (forall j :: 0 <= j < |row| ==> InRange(row[j])) ==> 0 <= s <= 765 * |row|
  {
    if |row| == 0 then 0 else RowSum(row[..|row| - 1]) + PixelSum(row[|row| - 1])
  }

  /** char.sum(): the sum over all rows. */
  function Sum(g: seq<Row>): (s: int)
    ensures (forall k :: 0 <= k < |g| ==> RowSum(g[k]) >= 0) ==> s >= 0
  {
    if |g| == 0 then 0 else Sum(g[..|g| - 1]) + RowSum(g[|g| - 1])
  }

  /** A positive total means some row has a positive sum. */
  lemma {:induction false} PositiveRow(g: seq<Row>)
    requires Sum(g) > 0
    ensures exists k :: 0 <= k < |g| && RowSum(g[k]) > 0
  {
    var p := g[..|g| - 1];
    if RowSum(g[|g| - 1]) <= 0 {
      PositiveRow(p);
      var k :| 0 <= k < |p| && RowSum(p[k]) > 0;
      assert g[k] == p[k];
    }
  }

  /** Where the upward search of the trim stops: the first positive row from i on, or row 4. */
  function FirstLit(g: seq<Row>, i: nat): (f: nat)
    requires IsGlyph(g) && i <= 4
    ensures i <= f <= 4
    decreases 4 - i
  {
    if i >= 4 || RowSum(g[i]) > 0 then i else FirstLit(g, i + 1)
  }

  /** Where the downward search of the trim stops: the last positive row up to i, or row 0. */
  function LastLit(g: seq<Row>, i: nat): (l: nat)
    requires IsGlyph(g) && i <= 4
    ensures l <= i
  {
    if i == 0 || RowSum(g[i]) > 0 then i else LastLit(g, i - 1)
  }

  lemma {:induction false} FirstLitSpec(g: seq<Row>, i: nat, k: nat)
    requires IsGlyph(g) && i <= k < 5 && RowSum(g[k]) > 0
    ensures FirstLit(g, i) <= k && RowSum(g[FirstLit(g, i)]) > 0
    ensures forall m :: i <= m < FirstLit(g, i) ==> RowSum(g[m]) <= 0
    decreases 4 - i
  {
    if i < 4 && RowSum(g[i]) <= 0 {
      FirstLitSpec(g, i + 1, k);
    }
  }

  lemma {:induction false} LastLitSpec(g: seq<Row>, i: nat, k: nat)
    requires IsGlyph(g) && k <= i <= 4 && RowSum(g[k]) > 0
    ensures k <= LastLit(g, i) && RowSum(g[LastLit(g, i)]) > 0
    ensures forall m :: LastLit(g, i) < m <= i ==> RowSum(g[m]) <= 0
  {
    if i > 0 && RowSum(g[i]) <= 0 {
      LastLitSpec(g, i - 1, k);
    }
  }

  /** The glyph with its leading and trailing blank rows removed. */
  function Trimmed(g: seq<Row>): (t: seq<Row>)
    requires IsGlyph(g)
    ensures 1 <= |t| <= 5 && forall k :: 0 <= k < |t| ==> |t[k]| == 8
    ensures Sum(g) > 0 ==> RowSum(t[0]) > 0 && RowSum(t[|t| - 1]) > 0
  {
    if Sum(g) > 0 then
      LitRows(g);
      g[FirstLit(g, 0) .. LastLit(g, 4) + 1]
    else g
  }

  /** For a glyph with a positive total the two searches stop at its outermost positive rows. */
  lemma LitRows(g: seq<Row>)
    requires IsGlyph(g) && Sum(g) > 0
    ensures var f, l := FirstLit(g, 0), LastLit(g, 4);
      f <= l && RowSum(g[f]) > 0 && RowSum(g[l]) > 0
      && forall k :: 0 <= k < 5 && RowSum(g[k]) > 0 ==> f <= k <= l
  {
    PositiveRow(g);
    var k :| 0 <= k < 5 && RowSum(g[k]) > 0;
    FirstLitSpec(g, 0, k);
    LastLitSpec(g, 4, k);
    forall m | 0 <= m < 5 && RowSum(g[m]) > 0 ensures FirstLit(g, 0) <= m <= LastLit(g, 4) {
      FirstLitSpec(g, 0, m);
      LastLitSpec(g, 4, m);
    }
  }

  /**
   * A glyph with a positive total keeps exactly the rows from its first to its
   * last positive row; any other glyph is kept whole. Either way 1 to 5 rows
   * of 8 pixels remain.
   */
  lemma TrimmedIsTightSlice(g: seq<Row>)
    requires IsGlyph(g)
    ensures 1 <= |Trimmed(g)| <= 5 && forall k :: 0 <= k < |Trimmed(g)| ==> |Trimmed(g)[k]| == 8
    ensures Sum(g) <= 0 ==> Trimmed(g) == g
    ensures Sum(g) > 0 ==>
      var f, l := FirstLit(g, 0), LastLit(g, 4);
      f <= l && Trimmed(g) == g[f .. l + 1] && RowSum(g[f]) > 0 && RowSum(g[l]) > 0
      && forall k :: 0 <= k < 5 && RowSum(g[k]) > 0 ==> f <= k <= l
  {
    if Sum(g) > 0 {
      LitRows(g);
    }
  }

  /** _trim_whitespace, with its two searching loops. */
  method TrimWhitespace(g: seq<Row>) returns (t: seq<Row>)
    requires IsGlyph(g)
    ensures t == Trimmed(g)
  {
    if Sum(g) > 0 {
      var i := 0;
      while i < 4 && RowSum(g[i]) <= 0
        invariant 0 <= i <= 4 && FirstLit(g, i) == FirstLit(g, 0)
      {
        i := i + 1;
      }
      var sliceFrom := i;
      i := 4;
      while i > 0 && RowSum(g[i]) <= 0
        invariant 0 <= i <= 4 && LastLit(g, i) == LastLit(g, 4)
      {
        i := i - 1;
      }
      LitRows(g);
      t := g[sliceFrom .. i + 1];
    } else {
      t := g;
    }
  }
}
