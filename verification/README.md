# raylib text and texture core, in Dafny

This project models the integer core of raylib's `text.c` and `textures.c` and
proves properties of it:

- **UTF-8 decoding.** `GetNextCodepoint` turns the bytes of a NUL-terminated
  string into one codepoint and a byte count. Malformed input gives `'?'`
  (0x3F) and a partial count. The decoder is proved to invert the encoding of
  RFC 3629, section 3. Everything else it accepts is proved canonical (never
  overlong, never a surrogate). Its error steps are stated case by case.
- **Glyph lookup.** `GetGlyphIndex` is a linear search with the sentinel 63.
- **Text measurement.** `MeasureTextEx` walks a string codepoint by codepoint.
  It returns the widest line scaled by `fontSize/baseSize`, plus `spacing`
  between the codepoints of the longest line, and a height of one base size
  plus one and a half per newline. The model proves the C loop computes
  exactly this, stated on the lines of the text.
- **Font atlas.** `GenImageFontAtlas` places glyphs with the row-fill packer,
  or at positions an external skyline solver chose. It copies each glyph
  bitmap into a zeroed grayscale atlas and records its rectangle, then
  repacks the atlas as GRAY_ALPHA (255, gray).
- **LoadFontData loops.** Two small pieces: the FONT_BITMAP binarisation and
  the default codepoint list.
- **Image buffers.** The textures.c helpers are modelled: `GetPixelDataSize`,
  the mipmap-summing `ImageCopy`, and `ImageFromImage`. So are `LoadImageEx`
  and `GenImageColor` (colours to RGBA bytes), the 8- and 16-bit branches of
  `GetImageData`, `GetImageAlphaBorder`, and `ImageAlphaMask`.

Files:

- `types.dfy` (module `Types`): the value types `Image`, `Color`, `Rect`,
  `CharInfo` and `Font`, and the pixel-format codes.
- `utf8.dfy` (module `Utf8`): the decoder and the RFC 3629 encoder.
- `text.dfy` (module `Text`): lookup, measurement and the LoadFontData loops.
- `atlas.dfy` (module `FontAtlas`): the atlas builder.
- `textures.dfy` (module `Textures`): the image helpers.

How the C code is represented:

- **Images are values.** An `Image` holds its bytes as a `seq<byte>`. A C
  function that mallocs and fills a buffer is a method that fills a local
  `array` in the C loop's order and returns the finished value.
- **In place where C works in place.** The binarisation loop and the atlas
  copy loops update an `array` in place, with `modifies` clauses.
- **C strings.** A string is the `seq<byte>` of its bytes before the NUL.
  `Utf8.At` reads 0 past the end, which stands for the terminator.
- **Integer arithmetic.** C's truncating division is `Types.CDiv`. Bit masks
  and shifts on bytes are written as quotients and remainders.

## Model

| member | source | states |
|---|---|---|
| Types.GlyphCount | text.c:226-227 | a `charsCount` of 0 or less means the default 95; a positive one is kept |
| Utf8.GetNextCodepoint | text.c:507-611 | the byte count is 1 to 4 and the code is at most U+10FFFF; unless `'?'` comes back, every consumed byte after the first is a non-NUL `10xxxxxx` tail |
| Utf8.TwoOctets | text.c:531-543 | a 110xxxxx lead takes 1 or 2 bytes; anything but `'?'` is a value from U+0080 to U+07FF read from 2 bytes |
| Utf8.ThreeOctets | text.c:545-571 | a 1110xxxx lead takes 1 to 3 bytes; anything but `'?'` is a value from U+0800 to U+FFFF, never a surrogate, read from 3 bytes |
| Utf8.FourOctets | text.c:573-606 | a 11110xxx lead takes 1 to 4 bytes; anything but `'?'` is a value from U+10000 to U+10FFFF read from 4 bytes |
| Utf8.Encode | text.c:509-519 | the RFC 3629 encoding of a scalar value is 1, 2, 3 or 4 bytes by range |
| Utf8.DecodeEncode | text.c:526-606 | decoding the encoding of any scalar value, whatever follows it, gives that value and consumes exactly the encoding's length |
| Utf8.DecodedIsCanonical | text.c:558-603 | any result other than `'?'` is a scalar value (no surrogate), and the consumed bytes are exactly its shortest encoding (never overlong) |
| Utf8.BadContinuation | text.c:537-590 | when the k-th continuation byte (k = 1 to 3) is NUL or not a tail, the result is `'?'` with a count of k + 1 |
| Utf8.LeadByteExclusions | text.c:539-599 | a second byte out of range after E0, ED, F0 or F4 gives `'?'` with 2; leads F5 to F7, and C0 or C1 before a good tail, give `'?'` with 1 |
| Utf8.StrayLeadByte | text.c:524-574 | a stray tail byte or a lead from F8 up gives `'?'` with 1 |
| Utf8.StopsAtTerminator | text.c:533-590 | the decoder's result depends on no byte after the terminating NUL |
| Utf8.StepWithinString | text.c:447-450 | the walkers' step (1 after `'?'`, the count otherwise) is at least 1 and never passes the terminator |
| Text.FirstMatch | text.c:484-495 | the search result is the first glyph holding the codepoint, or 63 when none of the first `charsCount` glyphs does |
| Text.GetGlyphIndex | text.c:478-499 | the search loop returns exactly that slot, including 63 for any `charsCount <= 0` |
| Text.ConsecutiveSlots | text.c:478-499 | for glyphs holding 32, 33, ... the slot is `codepoint - 32` (the ordered-charset variant) or 63 |
| Text.Advance | text.c:454-455 | a glyph's advance is its `advanceX`, or its rectangle width plus `offsetX` when `advanceX` is 0 |
| Text.CodepointAdvance | text.c:445-455 | a codepoint advances by the glyph the search finds for it (slot 63 when none) |
| Text.Tick | text.c:452-465 | one loop pass: a newline closes the line into the widest, zeroes width and count and adds a line; any other codepoint adds its advance and one to the count; the longest count is kept |
| Text.Codepoints | text.c:439-450 | the walk yields at most one codepoint per byte |
| Text.AsciiCodepoints | text.c:439-450 | a NUL-free ASCII string is its own codepoint sequence |
| Utf8.EncodeAll | text.c:509-519 | a string encoding n scalar values has at least n bytes |
| Text.StringRoundTrip | text.c:439-450 | the UTF-8 encoding of any non-zero scalar values has no NUL, and the walk over it yields exactly those values |
| Text.WalkEncodes | text.c:439-450 | conversely, a C string whose walk yields no `'?'` yields scalar values only, and is exactly their UTF-8 encoding |
| Text.JoinLines | text.c:452-463 | splitting the codepoints at newlines loses nothing: the lines hold no newline and joined with newlines give the codepoints back |
| Text.LinesJoin | text.c:452-463 | splitting joined newline-free lines gives the same lines back |
| Text.LinesJoinLast | text.c:452-463 | appending a newline and a newline-free line to joined lines splits into one more line |
| Text.LinesAfterNewline | text.c:457-463 | a newline starts one more, empty line |
| Text.LinesExtend | text.c:452-456 | newline-free codepoints extend the last line |
| Text.LineCount | text.c:457-463 | there is one line more than there are newlines |
| Text.MaxWidthIsMax | text.c:459-468 | the widest-line value is at least 0 and at least every line's width, and is 0 or some line's width |
| Text.MaxLenIsMax | text.c:465 | the longest-line value is at least 0 and at least every line's length, and is 0 or some line's length |
| Text.HeightOne | text.c:433 | one line is one base size high |
| Text.HeightStep | text.c:462 | each newline adds one and a half base sizes |
| Text.TalliedSnoc | text.c:439-466 | the counters after one more codepoint are one loop pass over the counters before it |
| Text.MeasureStep | text.c:452-465 | one loop pass keeps the counters describing the lines of the text read so far |
| Text.NewlineStep | text.c:457-463 | at a newline the current line is closed into the widest, and a new empty line starts |
| Text.LetterStep | text.c:452-456 | any other codepoint adds its advance and one to the count of the current line |
| Text.LetterLines | text.c:452-456 | the lines after a non-newline extend the last line |
| Text.LineWidthSnoc | text.c:454-455 | a line's width grows by the advance of its next codepoint |
| Text.TalliedLines | text.c:439-466 | after any prefix, the counters are the current line's width and length, the widest and longest finished lines, and the line count |
| Text.TalliedMeasure | text.c:468 | after the whole text, folding the current line into the widest gives the widest line, the longest line and the line count |
| Text.MeasuredFromTally | text.c:468-472 | the measurement is the scaled vector of the final counters |
| Text.ScaledAsComputed | text.c:470-472 | the scaled vector is what the C code forms from the counters, the height and the scale factor |
| Text.MeasureResult | text.c:468-472 | the C results after the loop equal the measurement defined on the lines |
| Text.WalkStep | text.c:443-450 | one pass moves the byte index forward, stays within the string, and emits the decoded codepoint |
| Text.CountCodepoint | text.c:445-465 | the loop body, after decoding, is one step of the counter fold and keeps the height in step with the line count |
| Text.MeasureTextEx | text.c:424-475 | the result is the widest line's advances times `fontSize/baseSize`, plus (longest line's codepoints - 1) x `spacing`, and height `baseSize` x (1 + 1.5 x newlines) x scale |
| Text.SingleLine | text.c:452-456 | a text without a newline is one line |
| Text.UniformWidth | text.c:454 | a line of glyphs that all advance by `a` is `a` times its length wide |
| Text.UniformAdvance | text.c:445-454 | when all glyphs advance by the same non-zero `a`, every codepoint does, found or not |
| Text.UniformLine | text.c:439-468 | such a newline-free text is one line, `n*a` wide and `n` codepoints long |
| Text.ScaledAtBaseSize | text.c:434 | at `fontSize == baseSize` nothing is scaled |
| Text.MeasureOneLine | text.c:424-475 | a line of n codepoints with advance `a`, at the base size, measures `n*a + (n-1)*spacing` by one base size |
| Text.MeasureFiveGlyphs | text.c:424-475 | five glyphs of advance 20 with spacing 2 at scale 1 measure 108 wide |
| Text.Binary | text.c:186-187 | a binarised byte is 0 or 255, and 255 exactly when the byte is at least 80 |
| Text.BinaryIdempotent | text.c:184-188 | binarising twice changes nothing more |
| Text.Binarize | text.c:184-188 | the first `chw*chh` bytes are binarised in place; the rest of the buffer is untouched |
| Text.DefaultCodepoints | text.c:150-160 | the default list has `charsCount` (or 95) entries, entry i being i + 32 |
| Text.DefaultIsPrintableAscii | text.c:150-158 | the default 95-entry list holds exactly the codepoints 32 to 126 |
| FontAtlas.GlyphRow | text.c:263 | row y of a glyph is its `width` bytes from `y*width` |
| FontAtlas.Splice | text.c:259-265 | a row copy replaces exactly one run of the buffer |
| FontAtlas.BlitRowsOutside | text.c:257-265 | a byte outside every row run of a glyph copy keeps its value |
| FontAtlas.BlitRowsInside | text.c:257-265 | when the glyph does not stick out on the right, its pixel (gx, gy) lands at atlas pixel (x + gx, y + gy) |
| FontAtlas.BlitRowsLast | text.c:261-264 | the last copied row holds the glyph's row |
| FontAtlas.BlitRowsLater | text.c:257-265 | copying a later row leaves the bytes before it as they were |
| FontAtlas.RowsApart | text.c:263 | without a spill on the right, a pixel of an earlier glyph row lies before every later row's start |
| FontAtlas.Paint | text.c:243-264 | the painted atlas is `size*size` bytes |
| FontAtlas.PaintUntouched | text.c:243 | an atlas pixel no copied glyph wrote stays 0 |
| FontAtlas.PaintLastWriter | text.c:257-265 | the last glyph written over a pixel decides its value |
| FontAtlas.RowFill | text.c:255-285 | the row-fill places at most one glyph per input, and the first at the starting cursor |
| FontAtlas.RowFillAll | text.c:252-285 | the first glyph sits at (padding, padding) |
| FontAtlas.Wraps | text.c:274-276 | the cursor wraps when, moved right past the glyph and its padding, it reaches `size - width - padding` |
| FontAtlas.MoveCursor | text.c:274-283 | the next cursor: right by width + 2*padding, or on a wrap at (padding, y + fontSize + 2*padding) |
| FontAtlas.Stops | text.c:276-283 | the loop breaks after a glyph exactly when it wraps and the new row passes `size - fontSize - padding` |
| FontAtlas.CopiedPlacements | text.c:268-271 | every row-fill cursor becomes a copied placement at that cursor |
| FontAtlas.RowFillStep | text.c:273-284 | every placed glyph but the last leaves the packing running, and the next glyph sits where the cursor moved: right by width + 2*padding, or wrapped to (padding, y + fontSize + 2*padding) |
| FontAtlas.RowFillStop | text.c:276-283 | when fewer glyphs are placed than given, the last placed one wrapped past `size - fontSize - padding` |
| FontAtlas.RowFillSameRowDisjoint | text.c:273-284 | rows only move down, and a later glyph on the same row starts at least width + 2*padding to the right of an earlier one |
| FontAtlas.CursorFromPadding | text.c:252-284 | every cursor is at least (padding, padding), and every row after the first starts no lower than `size - fontSize - padding` |
| FontAtlas.RowFillHead | text.c:255-285 | the packing stops at a glyph exactly when the wrap passes the bottom bound, and otherwise goes on from the moved cursor |
| FontAtlas.SkylinePlacements | text.c:313-326 | each glyph goes to the solver's corner plus the padding, copied only when packed |
| FontAtlas.Glyphs | text.c:255-263 | the glyph bitmaps are the first n characters' images |
| FontAtlas.Placements | text.c:250-330 | pack method 0 gives the row-fill positions, 1 the skyline positions, any other nothing |
| FontAtlas.CopyGlyph | text.c:259-265 | the nested copy loops leave the atlas as the glyph's blit |
| FontAtlas.BlitRowsNext | text.c:259-265 | one more copied row splices that row into the buffer |
| FontAtlas.CopyGlyphRow | text.c:261-264 | the inner loop copies row y to the run at `(y0 + y)*size + x0` and changes nothing else |
| FontAtlas.PlaceGlyph | text.c:259-271 | placing glyph i paints it and records its rectangle |
| FontAtlas.RowFillPack | text.c:250-287 | the loop places exactly the row-fill positions, paints them all, and records each placed glyph's rectangle with its own width and height |
| FontAtlas.SkylinePack | text.c:319-330 | every rectangle is the solver's corner plus the padding; only packed glyphs are painted |
| FontAtlas.GrayToGrayAlpha | text.c:341-345 | the repack is twice as long, every even byte 255 and every odd byte the gray value |
| FontAtlas.GenImageFontAtlas | text.c:220-356 | the atlas is a `size*size` GRAY_ALPHA image, every even byte 255 and every odd byte the painted gray value; the rectangles are the placements' corners with the glyphs' own sizes |
| FontAtlas.AtlasReadsWhite | text.c:341-351 | read back by `GetImageData`, the atlas is white pixels whose alpha is the painted coverage |
| Textures.BitsPerPixel | textures.c:528-552 | the bits per pixel are one of 0, 2, 4, 8, 16, 24, 32, 96 and 128 |
| Textures.GetPixelDataSize | textures.c:523-557 | the size is between 0 and 16 bytes per pixel, and 0 for an unknown format |
| Textures.PixelDataSizeTable | textures.c:528-554 | the size of every format in bytes: w*h, 2, 3, 4, 12 or 16 times w*h, (w*h)/2 or (w*h)/4, and 0 for an unknown format |
| Textures.MipDim | textures.c:625-630 | the next level's side is half the current one, truncated, and never below 1; it never grows |
| Textures.MipChainSize | textures.c:621-631 | the bytes of `mipmaps` levels: the data size of each level, the sides halving from one to the next |
| Textures.MipChainCoversBase | textures.c:621-631 | a mipmap chain's total is never negative and includes the base level |
| Textures.MipChainGrows | textures.c:621-631 | one more mipmap level never shrinks the total |
| Textures.ImageCopy | textures.c:613-647 | the copy keeps width, height, mipmaps and format, and holds exactly the first (sum of all mipmap level sizes) bytes |
| Textures.ImageFromImage | textures.c:650-653 | the result is the full copy whatever the rectangle |
| Textures.RgbaBytes | textures.c:117-124 | colour k goes to bytes 4k to 4k+3 as r, g, b, a |
| Textures.PacksRgbaIsRgbaBytes | textures.c:117-124 | that per-colour layout determines the buffer |
| Textures.LoadImageEx | textures.c:104-127 | the image is w x h RGBA with one mipmap, and bytes 4k..4k+3 are the channels of colour k, for every k < w*h |
| Textures.PutColor | textures.c:119-122 | one pass writes the four channels and nothing else |
| Textures.GenImageColor | textures.c:973-984 | the image is w x h RGBA, every pixel `color` |
| Textures.BytesPerPixel | textures.c:528-533 | bytes per pixel of a byte format are its bits over 8 |
| Textures.Word | textures.c:294 | a 16-bit pixel is the little-endian word of its two bytes, low byte first |
| Textures.Unpack5551 | textures.c:292-300 | R5G5B5A1: each 5-bit field times 8, so at most 248, and alpha 0 or 255 |
| Textures.Unpack565 | textures.c:302-310 | R5G6B5: the 5-bit fields times 8 (at most 248), the 6-bit field times 4 (at most 252), and opaque |
| Textures.Unpack4444 | textures.c:312-320 | R4G4B4A4: every 4-bit field times 17 |
| Textures.PixelOf | textures.c:274-338 | pixel i as the format's case builds it: gray, gray and alpha, a 16-bit word, or 3 or 4 byte channels |
| Textures.ImagePixels | textures.c:268-339 | one colour per pixel |
| Textures.GetImageData | textures.c:258-372 | one colour per pixel; for every 8- and 16-bit format, colour i is the format's decoding of pixel i |
| Textures.ReadPixel | textures.c:273-368 | one switch pass decodes pixel i and moves the byte cursor by the format's channel count |
| Textures.ReadBackRgba | textures.c:322-329 | reading back an image made from colours gives those colours |
| Textures.PackedFormatsInvertible | textures.c:292-320 | the 16-bit decodings (5-bit x8, 6-bit x4, 4-bit x17, alpha bit x255) lose nothing: the packed word is recovered from the colour |
| Textures.Fields565 | textures.c:302-310 | R5G6B5 decoding is invertible |
| Textures.Fields5551 | textures.c:292-300 | R5G5B5A1 decoding is invertible |
| Textures.Fields4444 | textures.c:312-320 | R4G4B4A4 decoding is invertible |
| Textures.RowMajor | textures.c:502 | `y*width + x` lies inside the pixel array |
| Textures.GetImageAlphaBorder | textures.c:486-519 | every pixel above the threshold lies in the box; each bound is reached by such a pixel or keeps its sentinel (65536 or 0); with no such pixel the result is {65536, 65536, -65535, -65535}; for images of at most 65536 x 65536 with one, the box is tight |
| Textures.ScanRow | textures.c:500-511 | scanning a row keeps every earlier qualifying pixel in the bounds and every bound reached |
| Textures.Visit | textures.c:502-510 | one pixel's visit keeps both facts |
| Textures.BoundedStep | textures.c:504-510 | bounds that only widen keep earlier pixels inside |
| Textures.ReachedStep | textures.c:504-510 | a bound that moves only to the visited qualifying pixel stays reached |
| Textures.BoundedRow | textures.c:500-511 | a finished row extends the bounded region to the next row |
| Textures.MaskBytes | textures.c:893-894 | the mask holds at least one byte per image pixel |
| Textures.RgbaBase | textures.c:915 | the image the alpha goes into keeps its size; it is RGBA unless the image has no pixels, when `ImageFormat` returns at once and the format is kept |
| Textures.InterleaveAlpha | textures.c:899-906 | the buffer has 2n bytes, the gray byte then the mask byte of each pixel |
| Textures.ReplaceAlpha | textures.c:918-921 | every fourth byte from byte 3 becomes the mask byte, all others keep their value |
| Textures.GrayIntoGrayAlpha | textures.c:895-910 | a grayscale image becomes GRAY_ALPHA of the same size, each pixel's gray byte followed by its mask byte |
| Textures.AlphaIntoRgba | textures.c:917-921 | the alpha byte of each of the first n pixels becomes the mask byte, everything else is kept, and with n = 0 the image is returned as it was |
| Textures.ImageAlphaMask | textures.c:880-926 | a size mismatch or a compressed image leaves the image unchanged; a grayscale image becomes GRAY_ALPHA with bytes (image[i], mask[i]); any other non-empty image becomes RGBA with the mask in every alpha byte and all other bytes kept; an empty image of any other format is left as it was |

## Left out

- File input, stb_truetype, GPU and rlgl calls, and all drawing are not part
  of this model. This covers `LoadImage*`, `LoadTexture*`, the TTF parsing
  and rasterising in `LoadFontData`, `DrawTextEx`, `LoadFontEx`,
  `UnloadFont`, and the `DrawTexture*` functions.
- The stb_rect_pack skyline solver is not part of this model. Its answer
  (corner and `was_packed` per glyph) is an input to
  `FontAtlas.GenImageFontAtlas`.
- FontAtlas.GenImageFontAtlas: the atlas side is an input. The C code guesses
  it with `sqrtf`, `logf` and `powf` on the summed glyph areas, which is
  floating point.
- FontAtlas.GenImageFontAtlas: requires that every atlas byte the copy loops
  write lies inside the `size*size` buffer (`FitsFlat`). The C code writes
  before it tests for a wrap, and tests with the current glyph's width, so it
  does not guarantee this. A glyph that sticks out on the right is modelled
  as the C code writes it, spilling into the next atlas row.
- FontAtlas.GenImageFontAtlas: with row-fill packing it returns only the
  rectangles of the glyphs placed. The C table has `charsCount` entries, and
  the rest are left uninitialised. With a pack method other than 0 or 1 the
  model paints nothing and returns no rectangles. There the C code also
  paints nothing, but it returns a table of `charsCount` uninitialised
  rectangles.
- Text.MeasureTextEx: requires `charsCount > 63`, so that the not-found slot
  63 is a glyph, and a non-zero `baseSize`. For a codepoint missing from the
  font, the C code reads `chars[63]` without checking that slot 63 exists. It
  also divides by `baseSize`.
- Text.MeasureTextEx: widths are summed as exact integers and scaled with
  exact reals. The C code uses `float` and its rounding is not modelled.
- Textures.GetImageAlphaBorder: takes the threshold as the byte
  `(unsigned char)(threshold*255.0f)` the C code compares against. The float
  product and its truncation are not modelled. Neither is the undefined
  conversion for thresholds outside [0, 1], nor the float `Rectangle` the C
  function returns; the model returns integer fields.
- Textures.GetImageData: the R32, R32G32B32 and R32G32B32A32 branches convert
  floats, and are not part of this model. For those formats, the compressed
  formats and unknown formats, the returned pixels are unspecified.
- Textures.ImageAlphaMask: the two `ImageFormat` conversions it may call are
  float code and are not part of this model. Their results are passed in as
  `grayMask` and `rgbaImage`, and are only looked at for an image with pixels.
  The early return of `ImageFormat` on a NULL `data` pointer has no
  counterpart, since image data is a sequence. The update through
  `Image *image` is modelled as a returned image.
- 16-bit pixels are read as little-endian `unsigned short` words. This is the
  byte order of the platforms raylib targets; C leaves it to the host.
- The pixel-format codes follow raylib's `PixelFormat` enumeration; raylib.h
  is not part of this model.
- C `int` overflow (for example `width*height*bpp` for huge images) is not
  modelled; all integers are unbounded.
- Allocation failure (`RL_MALLOC` returning NULL) is not modelled.
- Logging is not modelled. The `TraceLog` messages of `GenImageFontAtlas`
  (text.c:291, 329), `GetImageData` (textures.c:264, 269) and
  `ImageAlphaMask` (textures.c:884, 888) have no counterpart; the model keeps
  only the branch each message sits in.
- The other textures.c image operations (`ImageToPOT`, `ImageFormat`,
  `ImageAlphaClear`, `ImageAlphaPremultiply`, `GetImageDataNormalized`) are
  float code and are not part of this model. So are the ascent and advance
  scaling in `LoadFontData`.
