/**
 * RGB565 packing of one pixel into a 16-bit device cell and back
 * (_pack_bin / _unpack_bin). A 16-bit cell is an integer in [0, 65536); each
 * mask and shift of the source is written as the division or remainder by a
 * power of two that it performs on such values.
 */
module Codec {

  /** A pixel as the source handles it: three integer channels, not yet validated. */
  datatype Pixel = Pixel(r: int, g: int, b: int)

  /** One cell of the framebuffer: an unsigned 16-bit word. */
  type Word = w: int | 0 <= w < 0x1_0000

  predicate InRange(p: Pixel) {
    0 <= p.r <= 255 && 0 <= p.g <= 255 && 0 <= p.b <= 255
  }

  /** What survives RGB565: red and blue are multiples of 8, green a multiple of 4. */
  predicate IsQuantised(p: Pixel) {
    InRange(p) && p.r % 8 == 0 && p.g % 4 == 0 && p.b % 8 == 0
  }

  /** Reference definition of the precision loss: each channel rounded down. */
  function Quantise(p: Pixel): Pixel {
    Pixel(p.r - p.r % 8, p.g - p.g % 4, p.b - p.b % 8)
  }

  /**
   * ((r & 0xF8) << 8) + ((g & 0xFC) << 3) + (b >> 3) on validated channels:
   * the top 5 bits of red, the top 6 of green and the top 5 of blue, in
   * that order from the high bit down.
   */
  function Pack(p: Pixel): (w: Word)
    requires InRange(p)
    ensures w / 2048 == p.r / 8 && w / 32 % 64 == p.g / 4 && w % 32 == p.b / 8
  {
    WordFields(p.r / 8, p.g / 4, p.b / 8);
    (p.r - p.r % 8) * 256 + (p.g - p.g % 4) * 8 + p.b / 8
  }

  /** ((w & 0xF800) >> 8, (w & 0x07E0) >> 3, (w & 0x001F) << 3). */
  function Unpack(w: Word): (p: Pixel)
    ensures IsQuantised(p)
  {
    Pixel(w / 2048 * 8, w / 32 % 64 * 4, w % 32 * 8)
  }

  lemma WordFields(a: int, b: int, c: int)
    requires 0 <= a < 32 && 0 <= b < 64 && 0 <= c < 32
    ensures var w := 2048 * a + 32 * b + c; w / 2048 == a && w / 32 % 64 == b && w % 32 == c
  {
    var w := 2048 * a + 32 * b + c;
    assert w / 32 == 64 * a + b;
  }

  /** Decoding an encoded pixel gives the pixel with its low bits cleared. */
  lemma UnpackPack(p: Pixel)
    requires InRange(p)
    ensures Unpack(Pack(p)) == Quantise(p)
  {
    var a, b, c := p.r / 8, p.g / 4, p.b / 8;
    assert Pack(p) == 2048 * a + 32 * b + c;
    WordFields(a, b, c);
  }

  /** Every 16-bit cell is the encoding of its own decoding. */
  lemma PackUnpack(w: Word)
    ensures InRange(Unpack(w)) && Pack(Unpack(w)) == w
  {
    var a, b, c := w / 2048, w / 32 % 64, w % 32;
    assert w == 2048 * a + 32 * b + c;
    assert Unpack(w) == Pixel(8 * a, 4 * b, 8 * c);
  }

  /** Decoding after encoding is idempotent: a second round trip changes nothing. */
  lemma RoundTripIdempotent(p: Pixel)
    requires InRange(p)
    ensures Unpack(Pack(Unpack(Pack(p)))) == Unpack(Pack(p))
  {
    PackUnpack(Pack(p));
  }

  /** Quantise leaves exactly the quantised pixels unchanged. */
  lemma QuantiseFixedPoints(p: Pixel)
    requires InRange(p)
    ensures IsQuantised(Quantise(p))
    ensures Quantise(p) == p <==> IsQuantised(p)
  {
  }
}
