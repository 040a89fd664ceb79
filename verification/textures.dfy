/**
 * The integer part of textures.c: pixel-buffer sizes, image copies, the
 * Color-to-RGBA packing, the 8- and 16-bit branches of `GetImageData`, the
 * alpha bounding box and the grayscale path of `ImageAlphaMask`.
 *
 * Every C function that fills a freshly allocated buffer is a method that
 * fills a local array and returns the resulting `Image` or pixel sequence.
 */
module Textures {
  import opened Types

  // ---------------------------------------------------------------------------
  // Sizes

  /** The bits-per-pixel switch of `GetPixelDataSize`; 0 for an unknown format. */
  function BitsPerPixel(format: int): (bpp: int)
    ensures bpp in {0, 2, 4, 8, 16, 24, 32, 96, 128}
  {
    if format == UncompressedGrayscale then 8
    else if format in {UncompressedGrayAlpha, UncompressedR5G6B5, UncompressedR5G5B5A1, UncompressedR4G4B4A4} then 16
    else if format == UncompressedR8G8B8A8 then 32
    else if format == UncompressedR8G8B8 then 24
    else if format == UncompressedR32 then 32
    else if format == UncompressedR32G32B32 then 32 * 3
    else if format == UncompressedR32G32B32A32 then 32 * 4
    else if format in {CompressedDxt1Rgb, CompressedDxt1Rgba, CompressedEtc1Rgb, CompressedEtc2Rgb,
                       CompressedPvrtRgb, CompressedPvrtRgba} then 4
    else if format in {CompressedDxt3Rgba, CompressedDxt5Rgba, CompressedEtc2EacRgba, CompressedAstc4x4Rgba} then 8
    else if format == CompressedAstc8x8Rgba then 2
    else 0
  }

  /** `GetPixelDataSize`: `width*height*bpp/8` with C's truncating division. */
  function GetPixelDataSize(width: int, height: int, format: int): (size: int)
    ensures width >= 0 && height >= 0 ==> 0 <= size <= width * height * 16
    ensures BitsPerPixel(format) == 0 ==> size == 0
  {
    CDiv(width * height * BitsPerPixel(format), 8)
  }

  /** The data size of every format, in bytes, for non-negative dimensions. */
  lemma PixelDataSizeTable(w: int, h: int, format: int)
    requires w >= 0 && h >= 0
    ensures var size := GetPixelDataSize(w, h, format);
      && ((format in {UncompressedGrayscale, CompressedDxt3Rgba, CompressedDxt5Rgba, CompressedEtc2EacRgba,
                      CompressedAstc4x4Rgba}) ==> size == w * h)
      && (format in {UncompressedGrayAlpha, UncompressedR5G6B5, UncompressedR5G5B5A1, UncompressedR4G4B4A4} ==> size == 2 * (w * h))
      && (format == UncompressedR8G8B8 ==> size == 3 * (w * h))
      && (format in {UncompressedR8G8B8A8, UncompressedR32} ==> size == 4 * (w * h))
      && (format == UncompressedR32G32B32 ==> size == 12 * (w * h))
      && (format == UncompressedR32G32B32A32 ==> size == 16 * (w * h))
      && ((format in {CompressedDxt1Rgb, CompressedDxt1Rgba, CompressedEtc1Rgb, CompressedEtc2Rgb,
                      CompressedPvrtRgb, CompressedPvrtRgba}) ==> size == (w * h) / 2)
      && (format == CompressedAstc8x8Rgba ==> size == (w * h) / 4)
      && (!(UncompressedGrayscale <= format <= CompressedAstc8x8Rgba) ==> size == 0)
  {
    EighthsOf(w * h);
  }

  /** `n*bpp/8` for each bits-per-pixel value of the table. */
  lemma EighthsOf(n: int)
    requires n >= 0
    ensures CDiv(n * 8, 8) == n && CDiv(n * 16, 8) == 2 * n && CDiv(n * 24, 8) == 3 * n
    ensures CDiv(n * 32, 8) == 4 * n && CDiv(n * 96, 8) == 12 * n && CDiv(n * 128, 8) == 16 * n
    ensures CDiv(n * 4, 8) == n / 2 && CDiv(n * 2, 8) == n / 4 && CDiv(n * 0, 8) == 0
  {
  }

  /** One mipmap step of `ImageCopy`: halve with C division, then clamp to at least 1. */
  function MipDim(d: int): (r: int)
    ensures r >= 1 && (d >= 1 ==> r <= d)
  {
    var half := CDiv(d, 2);
    if half < 1 then 1 else half
  }

  /** The bytes of `levels` mipmap levels starting at `width` x `height`. */
  function MipChainSize(width: int, height: int, format: int, levels: int): int
    decreases levels
  {
    if levels <= 0 then 0
    else GetPixelDataSize(width, height, format) + MipChainSize(MipDim(width), MipDim(height), format, levels - 1)
  }

  /** A chain of at least one level holds the base level and never a negative size. */
  lemma {:induction false} MipChainCoversBase(width: int, height: int, format: int, levels: int)
    requires width >= 0 && height >= 0
    ensures MipChainSize(width, height, format, levels) >= 0
    ensures levels >= 1 ==> MipChainSize(width, height, format, levels) >= GetPixelDataSize(width, height, format)
    decreases levels
  {
    if levels >= 1 {
      MipChainCoversBase(MipDim(width), MipDim(height), format, levels - 1);
    }
  }

  /** A chain with one more level adds the size of the level after the last. */
  lemma {:induction false} MipChainGrows(width: int, height: int, format: int, levels: int)
    requires width >= 0 && height >= 0
    ensures MipChainSize(width, height, format, levels + 1) >= MipChainSize(width, height, format, levels)
    decreases levels
  {
    if levels >= 1 {
      MipChainGrows(MipDim(width), MipDim(height), format, levels - 1);
    }
  }

  // ---------------------------------------------------------------------------
  // Copies

  /** The image `ImageCopy` makes: the same header and the leading bytes of every mipmap level. */
  function Copied(image: Image): Image
    requires image.width >= 0 && image.height >= 0
    requires MipChainSize(image.width, image.height, image.format, image.mipmaps) <= |image.data|
  {
    MipChainCoversBase(image.width, image.height, image.format, image.mipmaps);
    var size := MipChainSize(image.width, image.height, image.format, image.mipmaps);
    Image(image.data[..size], image.width, image.height, image.mipmaps, image.format)
  }

  /** `ImageCopy`: sums the mipmap sizes in a loop, then copies that many bytes. */
  method ImageCopy(image: Image) returns (copy: Image)
    requires image.width >= 0 && image.height >= 0
    requires MipChainSize(image.width, image.height, image.format, image.mipmaps) <= |image.data|
    ensures copy.width == image.width && copy.height == image.height
    ensures copy.mipmaps == image.mipmaps && copy.format == image.format
    ensures |copy.data| == MipChainSize(image.width, image.height, image.format, image.mipmaps)
    ensures copy.data == image.data[..|copy.data|]
    ensures copy == Copied(image)
  {
    var width := image.width;
    var height := image.height;
    var size := 0;
    var i := 0;
    while i < image.mipmaps
      invariant 0 <= i || image.mipmaps <= 0
      invariant size + MipChainSize(width, height, image.format, image.mipmaps - i)
             == MipChainSize(image.width, image.height, image.format, image.mipmaps)
      decreases image.mipmaps - i
    {
      size := size + GetPixelDataSize(width, height, image.format);
      width := CDiv(width, 2);
      height := CDiv(height, 2);
      if width < 1 { width := 1; }
      if height < 1 { height := 1; }
      i := i + 1;
    }
    MipChainCoversBase(image.width, image.height, image.format, image.mipmaps);
    copy := Image(image.data[..size], image.width, image.height, image.mipmaps, image.format);
  }

  /** `ImageFromImage`: the rectangle is ignored; the result is a full copy. */
  method ImageFromImage(image: Image, rec: Rect) returns (result: Image)
    requires image.width >= 0 && image.height >= 0
    requires MipChainSize(image.width, image.height, image.format, image.mipmaps) <= |image.data|
    ensures result == Copied(image)
  {
    result := ImageCopy(image);
  }

  // ---------------------------------------------------------------------------
  // Color arrays and RGBA buffers

  /** Four bytes per colour, in r, g, b, a order. */
  ghost predicate PacksRgba(bytes: seq<byte>, pixels: seq<Color>) {
    |bytes| == 4 * |pixels|
    && forall k :: 0 <= k < |pixels| ==>
         bytes[4 * k] == pixels[k].r && bytes[4 * k + 1] == pixels[k].g
         && bytes[4 * k + 2] == pixels[k].b && bytes[4 * k + 3] == pixels[k].a
  }

  /** The R8G8B8A8 bytes of a colour array. */
  function RgbaBytes(pixels: seq<Color>): (bytes: seq<byte>)
    ensures PacksRgba(bytes, pixels)
  {
    if pixels == [] then []
    else
      var p := pixels[0];
      var rest := RgbaBytes(pixels[1..]);
      var bytes := [p.r, p.g, p.b, p.a] + rest;
      assert forall k :: 1 <= k < |pixels| ==> bytes[4 * k] == rest[4 * (k - 1)];
      bytes
  }

  /** The per-colour layout determines the buffer: it is `RgbaBytes`. */
  lemma PacksRgbaIsRgbaBytes(bytes: seq<byte>, pixels: seq<Color>)
    requires PacksRgba(bytes, pixels)
    ensures bytes == RgbaBytes(pixels)
  {
    var expected := RgbaBytes(pixels);
    forall i | 0 <= i < |bytes| ensures bytes[i] == expected[i] {
      var k, c := i / 4, i % 4;
      assert i == 4 * k + c && 0 <= c < 4 && 0 <= k < |pixels|;
      if c == 0 { assert bytes[4 * k] == pixels[k].r == expected[4 * k]; }
      else if c == 1 { assert bytes[4 * k + 1] == pixels[k].g == expected[4 * k + 1]; }
      else if c == 2 { assert bytes[4 * k + 2] == pixels[k].b == expected[4 * k + 2]; }
      else { assert bytes[4 * k + 3] == pixels[k].a == expected[4 * k + 3]; }
    }
  }

  /** `LoadImageEx`: copies `width*height` colours into a new R8G8B8A8 image. */
  method LoadImageEx(pixels: seq<Color>, width: int, height: int) returns (image: Image)
    requires width >= 0 && height >= 0 && |pixels| >= width * height
    ensures image.width == width && image.height == height
    ensures image.mipmaps == 1 && image.format == UncompressedR8G8B8A8
    ensures PacksRgba(image.data, pixels[..width * height])
    ensures image.data == RgbaBytes(pixels[..width * height])
  {
    var n := width * height;
    var data := new byte[n * 4];
    ghost var ps := pixels[..n];
    var k := 0;
    var i := 0;
    while i < n * 4
      invariant 0 <= k <= n && i == 4 * k
      invariant forall j :: 0 <= j < k ==>
        data[4 * j] == ps[j].r && data[4 * j + 1] == ps[j].g
        && data[4 * j + 2] == ps[j].b && data[4 * j + 3] == ps[j].a
    {
      PutColor(data, i, pixels[k]);
      k := k + 1;
      i := i + 4;
    }
    image := Image(data[..], width, height, 1, UncompressedR8G8B8A8);
    assert PacksRgba(data[..], ps);
    PacksRgbaIsRgbaBytes(data[..], ps);
  }

  /** One pass of the `LoadImageEx` loop: the channels of `c` go to bytes `i` to `i + 3`, nothing else changes. */
  method PutColor(data: array<byte>, i: int, c: Color)
    requires 0 <= i && i + 4 <= data.Length
    modifies data
    ensures data[i] == c.r && data[i + 1] == c.g && data[i + 2] == c.b && data[i + 3] == c.a
    ensures forall j :: 0 <= j < data.Length && !(i <= j < i + 4) ==> data[j] == old(data[j])
  {
    data[i] := c.r;
    data[i + 1] := c.g;
    data[i + 2] := c.b;
    data[i + 3] := c.a;
  }

  /** `GenImageColor`: an R8G8B8A8 image whose every pixel is `color`. */
  method GenImageColor(width: int, height: int, color: Color) returns (image: Image)
    requires width >= 0 && height >= 0
    ensures image.width == width && image.height == height
    ensures image.mipmaps == 1 && image.format == UncompressedR8G8B8A8
    ensures image.data == RgbaBytes(seq(width * height, _ => color))
  {
    var n := width * height;
    var pixels := new Color[n](_ => Color(0, 0, 0, 0));
    var i := 0;
    while i < n
      invariant 0 <= i <= n
      invariant forall j :: 0 <= j < i ==> pixels[j] == color
    {
      pixels[i] := color;
      i := i + 1;
    }
    var all := pixels[..];
    assert all == seq(n, _ => color);
    assert all[..n] == all;
    image := LoadImageEx(all, width, height);
  }

  // ---------------------------------------------------------------------------
  // Reading pixels back

  /** The formats whose `GetImageData` branch is integer code. */
  predicate IsByteFormat(format: int) {
    format in {UncompressedGrayscale, UncompressedGrayAlpha, UncompressedR5G6B5, UncompressedR8G8B8,
               UncompressedR5G5B5A1, UncompressedR4G4B4A4, UncompressedR8G8B8A8}
  }

  /** Bytes per pixel of a byte format: the bits of `BitsPerPixel` over 8. */
  function BytesPerPixel(format: int): (n: int)
    requires IsByteFormat(format)
    ensures 8 * n == BitsPerPixel(format)
  {
    if format == UncompressedGrayscale then 1
    else if format == UncompressedR8G8B8 then 3
    else if format == UncompressedR8G8B8A8 then 4
    else 2
  }

  /** The buffer of a byte-format image holds all its pixels. */
  predicate HoldsPixels(image: Image) {
    image.width >= 0 && image.height >= 0
    && (IsByteFormat(image.format) ==> |image.data| >= image.width * image.height * BytesPerPixel(image.format))
  }

  /** The `unsigned short` at pixel `i`, read in little-endian byte order. */
  function Word(data: seq<byte>, i: int): (w: int)
    requires 0 <= 2 * i && 2 * i + 1 < |data|
    ensures 0 <= w < 65536 && w % 256 == data[2 * i] as int && w / 256 == data[2 * i + 1] as int
  {
    (data[2 * i] as int) + 256 * (data[2 * i + 1] as int)
  }

  /**
   * Pixel `i` as the matching branch of `GetImageData` builds it. The 16-bit
   * branches scale each field by `255/31`, `255/63` or `255/15`, which are
   * integer divisions in C, so the factors are 8, 4 and 17.
   */
  function PixelOf(image: Image, i: int): Color
    requires HoldsPixels(image) && IsByteFormat(image.format)
    requires 0 <= i < image.width * image.height
  {
    var d := image.data;
    var f := image.format;
    if f == UncompressedGrayscale then Color(d[i], d[i], d[i], 255)
    else if f == UncompressedGrayAlpha then Color(d[2 * i], d[2 * i], d[2 * i], d[2 * i + 1])
    else if f == UncompressedR5G5B5A1 then Unpack5551(Word(d, i))
    else if f == UncompressedR5G6B5 then Unpack565(Word(d, i))
    else if f == UncompressedR4G4B4A4 then Unpack4444(Word(d, i))
    else if f == UncompressedR8G8B8A8 then Color(d[4 * i], d[4 * i + 1], d[4 * i + 2], d[4 * i + 3])
    else Color(d[3 * i], d[3 * i + 1], d[3 * i + 2], 255)
  }

  /** An R5G5B5A1 word as a colour: 5-bit fields times 8, the 1-bit alpha times 255. */
  function Unpack5551(p: int): (c: Color)
    requires 0 <= p < 65536
    ensures c.r <= 248 && c.g <= 248 && c.b <= 248 && (c.a == 0 || c.a == 255)
  {
    Color((p / 2048) * (255 / 31), ((p / 64) % 32) * (255 / 31), ((p / 2) % 32) * (255 / 31), (p % 2) * 255)
  }

  /** An R5G6B5 word as an opaque colour: 5-bit fields times 8, the 6-bit field times 4. */
  function Unpack565(p: int): (c: Color)
    requires 0 <= p < 65536
    ensures c.r <= 248 && c.g <= 252 && c.b <= 248 && c.a == 255
  {
    Color((p / 2048) * (255 / 31), ((p / 32) % 64) * (255 / 63), (p % 32) * (255 / 31), 255)
  }

  /** An R4G4B4A4 word as a colour: each 4-bit field times 17. */
  function Unpack4444(p: int): (c: Color)
    requires 0 <= p < 65536
    ensures c.r % 17 == 0 && c.g % 17 == 0 && c.b % 17 == 0 && c.a % 17 == 0
  {
    Color((p / 4096) * (255 / 15), ((p / 256) % 16) * (255 / 15), ((p / 16) % 16) * (255 / 15), (p % 16) * (255 / 15))
  }

  /** All pixels of a byte-format image, in row-major order. */
  function ImagePixels(image: Image): (pixels: seq<Color>)
    requires HoldsPixels(image) && IsByteFormat(image.format)
    ensures |pixels| == image.width * image.height
  {
    seq(image.width * image.height, i requires 0 <= i < image.width * image.height => PixelOf(image, i))
  }

  /**
   * `GetImageData` with its integer branches; `k` walks the byte buffer as
   * in the C loop. The 32-bit float formats, the compressed formats and
   * unknown formats give pixels the model leaves unspecified.
   */
  method GetImageData(image: Image) returns (pixels: seq<Color>)
    requires HoldsPixels(image)
    ensures |pixels| == image.width * image.height
    ensures IsByteFormat(image.format) ==> pixels == ImagePixels(image)
  {
    var n := image.width * image.height;
    var out := new Color[n](_ => Color(0, 0, 0, 0));
    if !IsCompressed(image.format) {
      var k := 0;
      var i := 0;
      while i < n
        invariant 0 <= i <= n && k == ByteCursor(image.format, i)
        invariant IsByteFormat(image.format) ==> forall j :: 0 <= j < i ==> out[j] == PixelOf(image, j)
      {
        var c;
        c, k := ReadPixel(image, i, k);
        out[i] := c;
        i := i + 1;
      }
    }
    pixels := out[..];
  }

  /** Where the C loop's byte cursor `k` stands at pixel `i`: it only moves for the 8-bit channel formats. */
  function ByteCursor(format: int, i: int): int {
    if format == UncompressedGrayAlpha then 2 * i
    else if format == UncompressedR8G8B8A8 then 4 * i
    else if format == UncompressedR8G8B8 then 3 * i
    else 0
  }

  /** One pass of the `GetImageData` loop: the format's branch reads pixel `i` and moves the cursor. */
  method ReadPixel(image: Image, i: int, k: int) returns (c: Color, k': int)
    requires HoldsPixels(image) && 0 <= i < image.width * image.height && k == ByteCursor(image.format, i)
    ensures k' == ByteCursor(image.format, i + 1)
    ensures IsByteFormat(image.format) ==> c == PixelOf(image, i)
  {
    var f, d := image.format, image.data;
    c, k' := Color(0, 0, 0, 0), k;
    if f == UncompressedGrayscale {
      c := Color(d[i], d[i], d[i], 255);
    } else if f == UncompressedGrayAlpha {
      c := Color(d[k], d[k], d[k], d[k + 1]);
      k' := k + 2;
    } else if f == UncompressedR5G5B5A1 {
      var p := (d[2 * i] as int) + 256 * (d[2 * i + 1] as int);
      c := Unpack5551(p);
    } else if f == UncompressedR5G6B5 {
      var p := (d[2 * i] as int) + 256 * (d[2 * i + 1] as int);
      c := Unpack565(p);
    } else if f == UncompressedR4G4B4A4 {
      var p := (d[2 * i] as int) + 256 * (d[2 * i + 1] as int);
      c := Unpack4444(p);
    } else if f == UncompressedR8G8B8A8 {
      c := Color(d[k], d[k + 1], d[k + 2], d[k + 3]);
      k' := k + 4;
    } else if f == UncompressedR8G8B8 {
      c := Color(d[k], d[k + 1], d[k + 2], 255);
      k' := k + 3;
    }
  }

  /** Reading back an image made by `LoadImageEx` gives the colours it was made from. */
  lemma {:induction false} ReadBackRgba(pixels: seq<Color>, width: int, height: int)
    requires width >= 0 && height >= 0 && |pixels| == width * height
    ensures var image := Image(RgbaBytes(pixels), width, height, 1, UncompressedR8G8B8A8);
      HoldsPixels(image) && ImagePixels(image) == pixels
  {
    var image := Image(RgbaBytes(pixels), width, height, 1, UncompressedR8G8B8A8);
    forall i | 0 <= i < width * height ensures PixelOf(image, i) == pixels[i] {
      assert (4 * i) / 4 == i && (4 * i + 1) / 4 == i && (4 * i + 2) / 4 == i && (4 * i + 3) / 4 == i;
    }
  }

  /**
   * The 16-bit branches lose nothing: each field of the packed word can be
   * recovered from the channel it was scaled into.
   */
  lemma PackedFormatsInvertible(image: Image, i: int)
    requires HoldsPixels(image) && 0 <= i < image.width * image.height
    requires image.format in {UncompressedR5G6B5, UncompressedR5G5B5A1, UncompressedR4G4B4A4}
    ensures var c, p := PixelOf(image, i), Word(image.data, i);
      (image.format == UncompressedR5G6B5 ==> p == (c.r / 8) * 2048 + (c.g / 4) * 32 + c.b / 8)
      && (image.format == UncompressedR5G5B5A1 ==> p == (c.r / 8) * 2048 + (c.g / 8) * 64 + (c.b / 8) * 2 + c.a / 255)
      && (image.format == UncompressedR4G4B4A4 ==> p == (c.r / 17) * 4096 + (c.g / 17) * 256 + (c.b / 17) * 16 + c.a / 17)
  {
    var p := Word(image.data, i);
    if image.format == UncompressedR5G6B5 {
      Fields565(p);
    } else if image.format == UncompressedR5G5B5A1 {
      Fields5551(p);
    } else {
      Fields4444(p);
    }
  }

  lemma Fields565(p: int)
    requires 0 <= p < 65536
    ensures var c := Unpack565(p); p == (c.r / 8) * 2048 + (c.g / 4) * 32 + c.b / 8
  {
    var r, g, b := p / 2048, (p / 32) % 64, p % 32;
    assert p / 32 == r * 64 + g;
    assert Unpack565(p) == Color(r * 8, g * 4, b * 8, 255);
    assert (r * 8) / 8 == r && (g * 4) / 4 == g && (b * 8) / 8 == b;
  }

  lemma Fields5551(p: int)
    requires 0 <= p < 65536
    ensures var c := Unpack5551(p); p == (c.r / 8) * 2048 + (c.g / 8) * 64 + (c.b / 8) * 2 + c.a / 255
  {
    var r, g, b, a := p / 2048, (p / 64) % 32, (p / 2) % 32, p % 2;
    assert p / 2 == (p / 64) * 32 + b;
    assert p / 64 == r * 32 + g;
    assert Unpack5551(p) == Color(r * 8, g * 8, b * 8, a * 255);
    assert (r * 8) / 8 == r && (g * 8) / 8 == g && (b * 8) / 8 == b && (a * 255) / 255 == a;
  }

  lemma Fields4444(p: int)
    requires 0 <= p < 65536
    ensures var c := Unpack4444(p); p == (c.r / 17) * 4096 + (c.g / 17) * 256 + (c.b / 17) * 16 + c.a / 17
  {
    var q1, a := p / 16, p % 16;
    var q2, b := q1 / 16, q1 % 16;
    var r, g := q2 / 16, q2 % 16;
    assert p == q2 * 256 + (b * 16 + a) && p / 256 == q2;
    assert p == r * 4096 + (g * 256 + b * 16 + a) && p / 4096 == r;
    assert Unpack4444(p) == Color(r * 17, g * 17, b * 17, a * 17);
    assert (r * 17) / 17 == r && (g * 17) / 17 == g && (b * 17) / 17 == b && (a * 17) / 17 == a;
  }

  // ---------------------------------------------------------------------------
  // Alpha border

  /** Pixel (x, y) lies in the image and its alpha is above the threshold byte. */
  predicate AboveThreshold(pixels: seq<Color>, width: int, height: int, threshold: byte, x: int, y: int)
    requires |pixels| == width * height
  {
    0 <= x < width && 0 <= y < height && y * width + x < |pixels| && pixels[y * width + x].a > threshold
  }

  /** Row-major indexing stays inside a width x height buffer. */
  lemma RowMajor(x: int, y: int, width: int, height: int)
    requires 0 <= x < width && 0 <= y < height
    ensures 0 <= y * width + x < width * height
  {
    assert y * width + x < (y + 1) * width <= height * width;
  }

  /**
   * `GetImageAlphaBorder`; the threshold is the byte `(unsigned char)(threshold*255.0f)`.
   * The box contains every pixel above the threshold; each bound is either
   * reached by such a pixel or still holds its initial value (65536 for the
   * minima, 0 for the maxima), so when no pixel qualifies the result is
   * {65536, 65536, -65535, -65535}, and for images of at most 65536 x 65536
   * with some qualifying pixel it is the tight bounding box.
   */
  method GetImageAlphaBorder(image: Image, threshold: byte) returns (crop: Rect)
    requires HoldsPixels(image)
    ensures IsByteFormat(image.format) ==>
      var px, w, h := ImagePixels(image), image.width, image.height;
      var xMin, yMin, xMax, yMax := crop.x, crop.y, crop.x + crop.width - 1, crop.y + crop.height - 1;
      (forall x, y :: AboveThreshold(px, w, h, threshold, x, y) ==> xMin <= x <= xMax && yMin <= y <= yMax)
      && (xMin == 65536 || exists x, y :: AboveThreshold(px, w, h, threshold, x, y) && x == xMin)
      && (xMax == 0 || exists x, y :: AboveThreshold(px, w, h, threshold, x, y) && x == xMax)
      && (yMin == 65536 || exists x, y :: AboveThreshold(px, w, h, threshold, x, y) && y == yMin)
      && (yMax == 0 || exists x, y :: AboveThreshold(px, w, h, threshold, x, y) && y == yMax)
      && xMin <= 65536 && yMin <= 65536 && xMax >= 0 && yMax >= 0
      && ((forall x, y :: !AboveThreshold(px, w, h, threshold, x, y)) ==> crop == Rect(65536, 65536, -65535, -65535))
      && (w <= 65536 && h <= 65536 && (exists x, y :: AboveThreshold(px, w, h, threshold, x, y)) ==>
            (exists x, y :: AboveThreshold(px, w, h, threshold, x, y) && x == xMin)
            && (exists x, y :: AboveThreshold(px, w, h, threshold, x, y) && x == xMax)
            && (exists x, y :: AboveThreshold(px, w, h, threshold, x, y) && y == yMin)
            && (exists x, y :: AboveThreshold(px, w, h, threshold, x, y) && y == yMax))
  {
    var pixels := GetImageData(image);
    var w, h := image.width, image.height;
    var xMin, xMax, yMin, yMax := 65536, 0, 65536, 0;
    var y := 0;
    while y < h
      invariant 0 <= y <= h
      invariant Bounded(pixels, w, h, threshold, 0, y, xMin, xMax, yMin, yMax)
      invariant Reached(pixels, w, h, threshold, xMin, xMax, yMin, yMax)
    {
      xMin, xMax, yMin, yMax := ScanRow(pixels, w, h, threshold, y, xMin, xMax, yMin, yMax);
      y := y + 1;
    }
    crop := Rect(xMin, yMin, (xMax + 1) - xMin, (yMax + 1) - yMin);
  }

  /**
   * Every qualifying pixel of the rows before `y`, and of row `y` before
   * column `x`, lies inside the bounds.
   */
  ghost predicate Bounded(pixels: seq<Color>, w: int, h: int, threshold: byte, x: int, y: int,
                          xMin: int, xMax: int, yMin: int, yMax: int)
    requires |pixels| == w * h
  {
    forall x', y' :: (y' < y || (y' == y && x' < x)) && AboveThreshold(pixels, w, h, threshold, x', y') ==>
      xMin <= x' <= xMax && yMin <= y' <= yMax
  }

  /** Each bound still holds its initial value or is reached by a qualifying pixel. */
  ghost predicate Reached(pixels: seq<Color>, w: int, h: int, threshold: byte, xMin: int, xMax: int, yMin: int, yMax: int)
    requires |pixels| == w * h
  {
    xMin <= 65536 && yMin <= 65536 && xMax >= 0 && yMax >= 0
    && (xMin == 65536 || exists x, y :: AboveThreshold(pixels, w, h, threshold, x, y) && x == xMin)
    && (xMax == 0 || exists x, y :: AboveThreshold(pixels, w, h, threshold, x, y) && x == xMax)
    && (yMin == 65536 || exists x, y :: AboveThreshold(pixels, w, h, threshold, x, y) && y == yMin)
    && (yMax == 0 || exists x, y :: AboveThreshold(pixels, w, h, threshold, x, y) && y == yMax)
  }

  /** The inner loop of the scan: row `y` widens the bounds to its qualifying pixels. */
  method ScanRow(pixels: seq<Color>, w: int, h: int, threshold: byte, y: int,
                 xMin0: int, xMax0: int, yMin0: int, yMax0: int)
    returns (xMin: int, xMax: int, yMin: int, yMax: int)
    requires |pixels| == w * h && 0 <= y < h
    requires Bounded(pixels, w, h, threshold, 0, y, xMin0, xMax0, yMin0, yMax0)
    requires Reached(pixels, w, h, threshold, xMin0, xMax0, yMin0, yMax0)
    ensures Bounded(pixels, w, h, threshold, 0, y + 1, xMin, xMax, yMin, yMax)
    ensures Reached(pixels, w, h, threshold, xMin, xMax, yMin, yMax)
  {
    xMin, xMax, yMin, yMax := xMin0, xMax0, yMin0, yMax0;
    var x := 0;
    while x < w
      invariant 0 <= x <= w
      invariant Bounded(pixels, w, h, threshold, x, y, xMin, xMax, yMin, yMax)
      invariant Reached(pixels, w, h, threshold, xMin, xMax, yMin, yMax)
    {
      xMin, xMax, yMin, yMax := Visit(pixels, w, h, threshold, x, y, xMin, xMax, yMin, yMax);
      x := x + 1;
    }
    BoundedRow(pixels, w, h, threshold, y, xMin, xMax, yMin, yMax);
  }

  /** The body of the scan: a pixel above the threshold widens each bound it lies outside of. */
  method Visit(pixels: seq<Color>, w: int, h: int, threshold: byte, x: int, y: int,
               xMin0: int, xMax0: int, yMin0: int, yMax0: int)
    returns (xMin: int, xMax: int, yMin: int, yMax: int)
    requires |pixels| == w * h && 0 <= x < w && 0 <= y < h
    requires Bounded(pixels, w, h, threshold, x, y, xMin0, xMax0, yMin0, yMax0)
    requires Reached(pixels, w, h, threshold, xMin0, xMax0, yMin0, yMax0)
    ensures Bounded(pixels, w, h, threshold, x + 1, y, xMin, xMax, yMin, yMax)
    ensures Reached(pixels, w, h, threshold, xMin, xMax, yMin, yMax)
  {
    RowMajor(x, y, w, h);
    xMin, xMax, yMin, yMax := xMin0, xMax0, yMin0, yMax0;
    if pixels[y * w + x].a > threshold {
      assert AboveThreshold(pixels, w, h, threshold, x, y);
      if x < xMin { xMin := x; }
      if x > xMax { xMax := x; }
      if y < yMin { yMin := y; }
      if y > yMax { yMax := y; }
    }
    BoundedStep(pixels, w, h, threshold, x, y, xMin0, xMax0, yMin0, yMax0, xMin, xMax, yMin, yMax);
    ReachedStep(pixels, w, h, threshold, x, y, xMin0, xMax0, yMin0, yMax0, xMin, xMax, yMin, yMax);
  }

  /** Visiting pixel (x, y) keeps the earlier pixels bounded when the bounds only widen. */
  lemma BoundedStep(pixels: seq<Color>, w: int, h: int, threshold: byte, x: int, y: int,
                    xMin0: int, xMax0: int, yMin0: int, yMax0: int, xMin: int, xMax: int, yMin: int, yMax: int)
    requires |pixels| == w * h
    requires Bounded(pixels, w, h, threshold, x, y, xMin0, xMax0, yMin0, yMax0)
    requires xMin <= xMin0 && xMax0 <= xMax && yMin <= yMin0 && yMax0 <= yMax
    requires AboveThreshold(pixels, w, h, threshold, x, y) ==> xMin <= x <= xMax && yMin <= y <= yMax
    ensures Bounded(pixels, w, h, threshold, x + 1, y, xMin, xMax, yMin, yMax)
  {
  }

  /** A bound that moves only to the visited qualifying pixel stays reached. */
  lemma ReachedStep(pixels: seq<Color>, w: int, h: int, threshold: byte, x: int, y: int,
                    xMin0: int, xMax0: int, yMin0: int, yMax0: int, xMin: int, xMax: int, yMin: int, yMax: int)
    requires |pixels| == w * h
    requires Reached(pixels, w, h, threshold, xMin0, xMax0, yMin0, yMax0)
    requires xMin <= xMin0 && xMax0 <= xMax && yMin <= yMin0 && yMax0 <= yMax
    requires xMin == xMin0 || (xMin == x && AboveThreshold(pixels, w, h, threshold, x, y))
    requires xMax == xMax0 || (xMax == x && AboveThreshold(pixels, w, h, threshold, x, y))
    requires yMin == yMin0 || (yMin == y && AboveThreshold(pixels, w, h, threshold, x, y))
    requires yMax == yMax0 || (yMax == y && AboveThreshold(pixels, w, h, threshold, x, y))
    ensures Reached(pixels, w, h, threshold, xMin, xMax, yMin, yMax)
  {
  }

  /** A finished row: bounding up to column `w` of row `y` bounds every row before `y + 1`. */
  lemma BoundedRow(pixels: seq<Color>, w: int, h: int, threshold: byte, y: int, xMin: int, xMax: int, yMin: int, yMax: int)
    requires |pixels| == w * h
    requires Bounded(pixels, w, h, threshold, w, y, xMin, xMax, yMin, yMax)
    ensures Bounded(pixels, w, h, threshold, 0, y + 1, xMin, xMax, yMin, yMax)
  {
  }

  // ---------------------------------------------------------------------------
  // Alpha mask

  /**
   * What `ImageAlphaMask` needs of its inputs once the size and format
   * guards pass. `grayMask` stands for what `ImageFormat(&mask,
   * UNCOMPRESSED_GRAYSCALE)` makes of the copied mask and `rgbaImage` for
   * what `ImageFormat(image, UNCOMPRESSED_R8G8B8A8)` makes of the image; each
   * is looked at only when that conversion runs. `ImageFormat` returns at
   * once on an image with no pixels, so on an empty image neither runs.
   */
  predicate AlphaMaskInputs(image: Image, alphaMask: Image, grayMask: Image, rgbaImage: Image) {
    var w, h := image.width, image.height;
    w >= 0 && h >= 0
    && MipChainSize(alphaMask.width, alphaMask.height, alphaMask.format, alphaMask.mipmaps) <= |alphaMask.data|
    && (alphaMask.format == UncompressedGrayscale ==> alphaMask.mipmaps >= 1)
    && (alphaMask.format != UncompressedGrayscale && !Empty(image) ==>
          grayMask.format == UncompressedGrayscale && grayMask.width == w && grayMask.height == h
          && |grayMask.data| >= w * h)
    && (image.format == UncompressedGrayscale ==> |image.data| >= w * h)
    && (image.format == UncompressedR8G8B8A8 ==> |image.data| >= 4 * (w * h))
    && (image.format != UncompressedGrayscale && image.format != UncompressedR8G8B8A8 && !Empty(image) ==>
          rgbaImage.format == UncompressedR8G8B8A8 && rgbaImage.width == w && rgbaImage.height == h
          && |rgbaImage.data| >= 4 * (w * h))
  }

  /** An image `ImageFormat` leaves alone because it has no pixels. */
  predicate Empty(image: Image) {
    image.width == 0 || image.height == 0
  }

  /**
   * The image the alpha bytes go into when it is not grayscale: the image
   * itself when it is already RGBA or has no pixels to convert, its RGBA
   * conversion otherwise.
   */
  function RgbaBase(image: Image, alphaMask: Image, grayMask: Image, rgbaImage: Image): (base: Image)
    requires AlphaMaskInputs(image, alphaMask, grayMask, rgbaImage) && image.format != UncompressedGrayscale
    ensures base.width == image.width && base.height == image.height
    ensures base.format == if Empty(image) then image.format else UncompressedR8G8B8A8
    ensures |base.data| >= 4 * (image.width * image.height)
  {
    if image.format == UncompressedR8G8B8A8 || Empty(image) then image else rgbaImage
  }

  /** The guards of `ImageAlphaMask`: equal sizes and an uncompressed image. */
  predicate MaskApplies(image: Image, alphaMask: Image) {
    image.width == alphaMask.width && image.height == alphaMask.height && !IsCompressed(image.format)
  }

  /**
   * The grayscale bytes `ImageAlphaMask` reads its alpha from: the copy
   * `ImageCopy` makes of a grayscale mask, or the converted mask otherwise.
   */
  function MaskBytes(image: Image, alphaMask: Image, grayMask: Image, rgbaImage: Image): (mask: seq<byte>)
    requires MaskApplies(image, alphaMask) && AlphaMaskInputs(image, alphaMask, grayMask, rgbaImage)
    ensures |mask| >= image.width * image.height
  {
    if alphaMask.format == UncompressedGrayscale then
      MipChainCoversBase(alphaMask.width, alphaMask.height, alphaMask.format, alphaMask.mipmaps);
      PixelDataSizeTable(alphaMask.width, alphaMask.height, alphaMask.format);
      Copied(alphaMask).data
    else grayMask.data
  }

  /** The GRAY_ALPHA buffer of `n` gray bytes, each followed by its mask byte. */
  method InterleaveAlpha(gray: seq<byte>, mask: seq<byte>, n: int) returns (data: seq<byte>)
    requires 0 <= n <= |gray| && n <= |mask|
    ensures |data| == 2 * n
    ensures forall i :: 0 <= i < n ==> data[2 * i] == gray[i] && data[2 * i + 1] == mask[i]
  {
    var buffer := new byte[n * 2];
    var i, k := 0, 0;
    while i < n
      invariant 0 <= i <= n && k == 2 * i
      invariant forall j :: 0 <= j < i ==> buffer[2 * j] == gray[j] && buffer[2 * j + 1] == mask[j]
    {
      buffer[k] := gray[i];
      buffer[k + 1] := mask[i];
      i, k := i + 1, k + 2;
    }
    data := buffer[..];
  }

  /** An R8G8B8A8 buffer whose first `n` alpha bytes are replaced by the mask. */
  method ReplaceAlpha(rgba: seq<byte>, mask: seq<byte>, n: int) returns (data: seq<byte>)
    requires 0 <= n && 4 * n <= |rgba| && n <= |mask|
    ensures |data| == |rgba|
    ensures forall i :: 0 <= i < n ==> data[4 * i + 3] == mask[i]
    ensures forall j :: 0 <= j < |rgba| && (j >= 4 * n || j % 4 != 3) ==> data[j] == rgba[j]
  {
    var buffer := new byte[|rgba|](j requires 0 <= j < |rgba| => rgba[j]);
    var i, k := 0, 3;
    while i < n
      invariant 0 <= i <= n && k == 4 * i + 3
      invariant forall j :: 0 <= j < i ==> buffer[4 * j + 3] == mask[j]
      invariant forall j :: 0 <= j < buffer.Length && (j >= 4 * i || j % 4 != 3) ==> buffer[j] == rgba[j]
    {
      buffer[k] := mask[i];
      i, k := i + 1, k + 4;
    }
    data := buffer[..];
  }

  /** `result` is the grayscale `image` as GRAY_ALPHA: byte pairs of gray then mask for its `n` pixels. */
  ghost predicate WithGrayAlpha(image: Image, mask: seq<byte>, n: int, result: Image) {
    result.width == image.width && result.height == image.height && result.mipmaps == image.mipmaps
    && result.format == UncompressedGrayAlpha && |result.data| == 2 * n
    && n <= |image.data| && n <= |mask|
    && forall i :: 0 <= i < n ==> result.data[2 * i] == image.data[i] && result.data[2 * i + 1] == mask[i]
  }

  /** `result` is `base` with the alpha byte of each of its first `n` pixels taken from the mask. */
  ghost predicate WithMaskedAlpha(base: Image, mask: seq<byte>, n: int, result: Image) {
    result.width == base.width && result.height == base.height
    && result.mipmaps == base.mipmaps && result.format == base.format && |result.data| == |base.data|
    && 0 <= n && 4 * n <= |base.data| && n <= |mask|
    && (forall i :: 0 <= i < n ==> result.data[4 * i + 3] == mask[i])
    && (forall j :: 0 <= j < |base.data| && (j >= 4 * n || j % 4 != 3) ==> result.data[j] == base.data[j])
  }

  /** `base` with its first `n` alpha bytes replaced by the mask; with `n == 0`, `base` itself. */
  method AlphaIntoRgba(base: Image, mask: seq<byte>, n: int) returns (result: Image)
    requires 0 <= n && 4 * n <= |base.data| && n <= |mask|
    ensures WithMaskedAlpha(base, mask, n, result)
    ensures n == 0 ==> result == base
  {
    var data := ReplaceAlpha(base.data, mask, n);
    result := base.(data := data);
    if n == 0 {
      assert data == base.data;
    }
  }

  /** The grayscale `image` with the mask interleaved as its alpha. */
  method GrayIntoGrayAlpha(image: Image, mask: seq<byte>, n: int) returns (result: Image)
    requires 0 <= n <= |image.data| && n <= |mask|
    ensures WithGrayAlpha(image, mask, n, result)
  {
    var data := InterleaveAlpha(image.data, mask, n);
    result := image.(data := data, format := UncompressedGrayAlpha);
  }

  /**
   * `ImageAlphaMask`. The C function updates `*image`; the model returns the
   * updated image. A size mismatch or a compressed image leaves it as it
   * was. A grayscale image becomes GRAY_ALPHA with the mask as its alpha
   * bytes; any other image is first converted to RGBA and gets the mask in
   * every fourth byte, except that an image with no pixels is left as it
   * was, since the conversion returns at once and the loop writes nothing.
   */
  method ImageAlphaMask(image: Image, alphaMask: Image, grayMask: Image, rgbaImage: Image) returns (result: Image)
    requires MaskApplies(image, alphaMask) ==> AlphaMaskInputs(image, alphaMask, grayMask, rgbaImage)
    ensures !MaskApplies(image, alphaMask) ==> result == image
    ensures MaskApplies(image, alphaMask) && image.format == UncompressedGrayscale ==>
      WithGrayAlpha(image, MaskBytes(image, alphaMask, grayMask, rgbaImage), image.width * image.height, result)
    ensures MaskApplies(image, alphaMask) && image.format != UncompressedGrayscale ==>
      WithMaskedAlpha(RgbaBase(image, alphaMask, grayMask, rgbaImage), MaskBytes(image, alphaMask, grayMask, rgbaImage),
                      image.width * image.height, result)
      && result.format == (if Empty(image) then image.format else UncompressedR8G8B8A8)
    ensures MaskApplies(image, alphaMask) && image.format != UncompressedGrayscale && Empty(image) ==> result == image
  {
    if image.width != alphaMask.width || image.height != alphaMask.height {
      result := image;
    } else if IsCompressed(image.format) {
      result := image;
    } else {
      var n := image.width * image.height;
      var mask := ImageCopy(alphaMask);
      if mask.format != UncompressedGrayscale {
        mask := grayMask;
      }
      assert mask.data == MaskBytes(image, alphaMask, grayMask, rgbaImage);
      if image.format == UncompressedGrayscale {
        result := GrayIntoGrayAlpha(image, mask.data, n);
      } else {
        if Empty(image) {
          assert n == 0;
        }
        result := AlphaIntoRgba(RgbaBase(image, alphaMask, grayMask, rgbaImage), mask.data, n);
      }
    }
  }
}
