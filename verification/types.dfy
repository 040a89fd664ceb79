/**
 * Value types shared by the text and texture modules: bytes, colours,
 * images, rectangles, glyph records and fonts, with the pixel-format codes
 * of raylib 2.5 (`PixelFormat` in raylib.h, which is not part of this model).
 */
module Types {

  /** An `unsigned char`. */
  type byte = x: int | 0 <= x < 256

  /** `Color`: four 8-bit channels. */
  datatype Color = Color(r: byte, g: byte, b: byte, a: byte)

  /**
   * `Image`: a CPU pixel buffer. `data` stands for the bytes the C pointer
   * addresses; its length is the size of the allocation.
   */
  datatype Image = Image(data: seq<byte>, width: int, height: int, mipmaps: int, format: int)

  /** `Rectangle`. The C fields are floats; every value stored here is an integer. */
  datatype Rect = Rect(x: int, y: int, width: int, height: int)

  /** `CharInfo`: one glyph of a font and its standalone grayscale bitmap. */
  datatype CharInfo = CharInfo(value: int, offsetX: int, offsetY: int, advanceX: int, image: Image)

  /** `Font`, without its GPU texture: `chars` and `recs` are the two parallel tables. */
  datatype Font = Font(baseSize: int, charsCount: int, chars: seq<CharInfo>, recs: seq<Rect>)

  // Pixel formats, in the order of raylib's PixelFormat enumeration.
  const UncompressedGrayscale := 1
  const UncompressedGrayAlpha := 2
  const UncompressedR5G6B5 := 3
  const UncompressedR8G8B8 := 4
  const UncompressedR5G5B5A1 := 5
  const UncompressedR4G4B4A4 := 6
  const UncompressedR8G8B8A8 := 7
  const UncompressedR32 := 8
  const UncompressedR32G32B32 := 9
  const UncompressedR32G32B32A32 := 10
  const CompressedDxt1Rgb := 11
  const CompressedDxt1Rgba := 12
  const CompressedDxt3Rgba := 13
  const CompressedDxt5Rgba := 14
  const CompressedEtc1Rgb := 15
  const CompressedEtc2Rgb := 16
  const CompressedEtc2EacRgba := 17
  const CompressedPvrtRgb := 18
  const CompressedPvrtRgba := 19
  const CompressedAstc4x4Rgba := 20
  const CompressedAstc8x8Rgba := 21

  /** The `format >= COMPRESSED_DXT1_RGB` test used by several image functions. */
  predicate IsCompressed(format: int) {
    format >= CompressedDxt1Rgb
  }

  /** The `charsCount > 0 ? charsCount : 95` default of the font loaders and the atlas builder. */
  function GlyphCount(charsCount: int): (n: int)
    ensures n > 0
    ensures charsCount > 0 ==> n == charsCount
    ensures charsCount <= 0 ==> n == 95
  {
    if charsCount > 0 then charsCount else 95
  }

  /** C integer division, which truncates toward zero (Dafny's `/` is Euclidean). */
  function CDiv(a: int, b: int): int
    requires b > 0
  {
    if a >= 0 then a / b else -((-a) / b)
  }
}
