/**
 * `GenImageFontAtlas` from text.c: glyph placement by the row-fill packer
 * (or by positions an external skyline solver chose), the copy of every
 * placed glyph bitmap into a zeroed grayscale atlas, and the final repack
 * of that atlas into GRAY_ALPHA bytes (255, gray).
 *
 * The C copy loop writes `atlas[(oy + y) * size + (ox + x)]`. Row `y` of a
 * glyph is therefore one contiguous run of the flat buffer starting at
 * `(oy + y) * size + ox`, and the model copies it as such: a glyph that
 * sticks out on the right spills into the next atlas row, exactly as the
 * C code does. The only demand on the caller is that every written index
 * lies inside the buffer.
 */
module FontAtlas {
  import opened Types
  import Textures

  // ---------------------------------------------------------------------------
  // Index arithmetic

  lemma MulMono(a: int, b: int, c: int)
    requires a <= b && c >= 0
    ensures a * c <= b * c
  {
    assert b * c - a * c == (b - a) * c;
  }

  /** Pixel (x, y) of a `w` x `h` row-major bitmap lies inside its `w*h` bytes. */
  lemma RowIndex(x: int, y: int, w: int, h: int)
    requires 0 <= x < w && 0 <= y < h
    ensures 0 <= y * w + x < w * h
    ensures y * w + w <= w * h
  {
    MulMono(0, y, w);
    MulMono(y + 1, h, w);
    assert (y + 1) * w == y * w + w;
    assert h * w == w * h;
  }

  lemma MulAddRight(a: int, b: int, c: int)
    ensures (a + b) * c == a * c + b * c
  {
  }

  // ---------------------------------------------------------------------------
  // Glyph bitmaps

  /** A standalone 8-bit glyph bitmap with all its `width*height` bytes. */
  predicate GlyphOk(g: Image) {
    g.width >= 0 && g.height >= 0 && |g.data| >= g.width * g.height
  }

  /** Row `y` of a glyph bitmap: `width` bytes starting at `y*width`. */
  function GlyphRow(g: Image, y: int): (row: seq<byte>)
    requires GlyphOk(g) && 0 <= y < g.height
    ensures |row| == g.width
    ensures forall x :: 0 <= x < g.width ==> y * g.width + x < |g.data| && row[x] == g.data[y * g.width + x]
  {
    RowSpan(y, g.width, g.height);
    g.data[y * g.width .. y * g.width + g.width]
  }

  /** Row `y` of a `w` x `h` bitmap spans the bytes from `y*w` up to `y*w + w <= w*h`. */
  lemma RowSpan(y: int, w: int, h: int)
    requires 0 <= y < h && w >= 0
    ensures 0 <= y * w && y * w + w <= w * h
  {
    MulAddRight(y, 1, w);
    MulMono(0, y, w);
    MulMono(y + 1, h, w);
    assert h * w == w * h;
  }

  // ---------------------------------------------------------------------------
  // Placements

  /** Where one glyph goes, and whether its bitmap is copied there. */
  datatype Placement = Placement(x: int, y: int, copied: bool)

  /** The flat index where row `y` of a glyph placed at `p` starts. */
  function RowBase(size: int, p: Placement, y: int): int {
    (p.y + y) * size + p.x
  }

  /** Every index the copy of `g` at `p` writes lies in a `size*size` buffer. */
  predicate FitsFlat(size: int, g: Image, p: Placement) {
    g.width == 0 || g.height == 0
    || (0 <= RowBase(size, p, 0) && RowBase(size, p, g.height - 1) + g.width <= size * size)
  }

  /** Row `b` starts `b - a` atlas rows after row `a`. */
  lemma RowBaseShift(size: int, p: Placement, a: int, b: int)
    ensures RowBase(size, p, b) == RowBase(size, p, a) + (b - a) * size
  {
    assert p.y + b == (p.y + a) + (b - a);
    MulAddRight(p.y + a, b - a, size);
  }

  /** Each row run of a fitting glyph lies inside the buffer. */
  lemma RowInBounds(size: int, g: Image, p: Placement, y: int)
    requires size >= 0 && GlyphOk(g) && FitsFlat(size, g, p) && 0 <= y < g.height && g.width > 0
    ensures 0 <= RowBase(size, p, y) && RowBase(size, p, y) + g.width <= size * size
  {
    RowBaseShift(size, p, 0, y);
    MulMono(0, y, size);
    RowBaseShift(size, p, y, g.height - 1);
    MulMono(0, g.height - 1 - y, size);
  }

  /** The bytes of `buf` with the run starting at `at` replaced by `row`. */
  function Splice(buf: seq<byte>, at: int, row: seq<byte>): (r: seq<byte>)
    requires 0 <= at && at + |row| <= |buf|
    ensures |r| == |buf|
    ensures forall j :: 0 <= j < |buf| ==> r[j] == if at <= j < at + |row| then row[j - at] else buf[j]
  {
    buf[..at] + row + buf[at + |row|..]
  }

  /** The buffer after the first `rows` rows of `g` were copied to `p`. */
  function BlitRows(buf: seq<byte>, size: int, g: Image, p: Placement, rows: int): (r: seq<byte>)
    requires size >= 0 && |buf| == size * size && GlyphOk(g) && FitsFlat(size, g, p)
    requires 0 <= rows <= g.height
    ensures |r| == |buf|
    decreases rows
  {
    if rows == 0 || g.width == 0 then buf
    else
      RowInBounds(size, g, p, rows - 1);
      Splice(BlitRows(buf, size, g, p, rows - 1), RowBase(size, p, rows - 1), GlyphRow(g, rows - 1))
  }

  /** The buffer after the whole of `g` was copied to `p`. */
  function Blit(buf: seq<byte>, size: int, g: Image, p: Placement): (r: seq<byte>)
    requires size >= 0 && |buf| == size * size && GlyphOk(g) && FitsFlat(size, g, p)
    ensures |r| == |buf|
  {
    BlitRows(buf, size, g, p, g.height)
  }

  /** A byte outside every row run of the copy keeps its value. */
  lemma {:induction false} BlitRowsOutside(buf: seq<byte>, size: int, g: Image, p: Placement, rows: int, j: int)
    requires size >= 0 && |buf| == size * size && GlyphOk(g) && FitsFlat(size, g, p)
    requires 0 <= rows <= g.height && 0 <= j < |buf|
    requires forall y :: 0 <= y < rows ==> !(RowBase(size, p, y) <= j < RowBase(size, p, y) + g.width)
    ensures BlitRows(buf, size, g, p, rows)[j] == buf[j]
    decreases rows
  {
    if rows > 0 && g.width > 0 {
      BlitRowsOutside(buf, size, g, p, rows - 1, j);
      RowInBounds(size, g, p, rows - 1);
      assert !(RowBase(size, p, rows - 1) <= j < RowBase(size, p, rows - 1) + g.width);
    }
  }

  /**
   * When the glyph does not stick out on the right (`0 <= x` and
   * `x + width <= size`), its row runs are disjoint and pixel (gx, gy) of
   * the glyph lands at atlas pixel (p.x + gx, p.y + gy).
   */
  lemma {:induction false} BlitRowsInside(buf: seq<byte>, size: int, g: Image, p: Placement, rows: int, gx: int, gy: int)
    requires size >= 0 && |buf| == size * size && GlyphOk(g) && FitsFlat(size, g, p)
    requires 0 <= rows <= g.height && 0 <= p.x && p.x + g.width <= size
    requires 0 <= gx < g.width && 0 <= gy < rows
    ensures 0 <= RowBase(size, p, gy) + gx < size * size
    ensures gy * g.width + gx < |g.data|
      && BlitRows(buf, size, g, p, rows)[RowBase(size, p, gy) + gx] == g.data[gy * g.width + gx]
    decreases rows
  {
    RowInBounds(size, g, p, gy);
    RowIndex(gx, gy, g.width, g.height);
    if gy < rows - 1 {
      BlitRowsInside(buf, size, g, p, rows - 1, gx, gy);
      RowsApart(size, p, g.width, gy, rows - 1, gx);
      BlitRowsLater(buf, size, g, p, rows, RowBase(size, p, gy) + gx);
    } else {
      BlitRowsLast(buf, size, g, p, rows, gx, gy);
    }
  }

  /** The last copied row holds the glyph's row. */
  lemma BlitRowsLast(buf: seq<byte>, size: int, g: Image, p: Placement, rows: int, gx: int, gy: int)
    requires size >= 0 && |buf| == size * size && GlyphOk(g) && FitsFlat(size, g, p)
    requires 0 < rows <= g.height && 0 <= gx < g.width && gy == rows - 1
    ensures 0 <= RowBase(size, p, gy) + gx < |buf|
    ensures gy * g.width + gx < |g.data|
      && BlitRows(buf, size, g, p, rows)[RowBase(size, p, gy) + gx] == g.data[gy * g.width + gx]
  {
    RowInBounds(size, g, p, gy);
    RowIndex(gx, gy, g.width, g.height);
    var row := GlyphRow(g, gy);
    var at := RowBase(size, p, gy);
    assert BlitRows(buf, size, g, p, rows) == Splice(BlitRows(buf, size, g, p, rows - 1), at, row);
    assert row[gx] == g.data[gy * g.width + gx];
  }

  /** Copying the last row leaves every byte before its start as it was. */
  lemma BlitRowsLater(buf: seq<byte>, size: int, g: Image, p: Placement, rows: int, j: int)
    requires size >= 0 && |buf| == size * size && GlyphOk(g) && FitsFlat(size, g, p)
    requires 0 < rows <= g.height && g.width > 0 && 0 <= j < RowBase(size, p, rows - 1)
    ensures j < size * size
    ensures BlitRows(buf, size, g, p, rows)[j] == BlitRows(buf, size, g, p, rows - 1)[j]
  {
    RowInBounds(size, g, p, rows - 1);
  }

  /** Without a spill on the right, a pixel of row `a` lies before the start of any later row `b`. */
  lemma RowsApart(size: int, p: Placement, w: int, a: int, b: int, x: int)
    requires 0 <= a < b && 0 <= x < w && 0 <= p.x && p.x + w <= size
    ensures RowBase(size, p, a) + x < RowBase(size, p, b)
  {
    RowBaseShift(size, p, a, b);
    MulMono(1, b - a, size);
  }

  // ---------------------------------------------------------------------------
  // Painting all glyphs

  /** Every glyph bitmap is complete and every copied placement fits the buffer. */
  predicate Paintable(size: int, glyphs: seq<Image>, ps: seq<Placement>) {
    size >= 0 && |ps| <= |glyphs|
    && (forall j :: 0 <= j < |glyphs| ==> GlyphOk(glyphs[j]))
    && (forall j :: 0 <= j < |ps| && ps[j].copied ==> FitsFlat(size, glyphs[j], ps[j]))
  }

  /** The grayscale atlas after the first `k` placements, starting from a zeroed buffer. */
  function Paint(size: int, glyphs: seq<Image>, ps: seq<Placement>, k: int): (buf: seq<byte>)
    requires Paintable(size, glyphs, ps) && 0 <= k <= |ps|
    ensures |buf| == size * size
    decreases k
  {
    if k == 0 then seq(size * size, _ => 0)
    else
      var prev := Paint(size, glyphs, ps, k - 1);
      if ps[k - 1].copied then Blit(prev, size, glyphs[k - 1], ps[k - 1]) else prev
  }

  /** Placement `p` of glyph `g` writes the flat index `j`. */
  predicate Covers(size: int, g: Image, p: Placement, j: int) {
    p.copied && g.width > 0 && exists y :: 0 <= y < g.height && RowBase(size, p, y) <= j < RowBase(size, p, y) + g.width
  }

  /** A pixel that no copied glyph wrote is still 0. */
  lemma {:induction false} PaintUntouched(size: int, glyphs: seq<Image>, ps: seq<Placement>, k: int, j: int)
    requires Paintable(size, glyphs, ps) && 0 <= k <= |ps| && 0 <= j < size * size
    requires forall i :: 0 <= i < k ==> !Covers(size, glyphs[i], ps[i], j)
    ensures Paint(size, glyphs, ps, k)[j] == 0
    decreases k
  {
    if k > 0 {
      PaintUntouched(size, glyphs, ps, k - 1, j);
      var g, p := glyphs[k - 1], ps[k - 1];
      if p.copied {
        assert !Covers(size, g, p, j);
        BlitRowsOutside(Paint(size, glyphs, ps, k - 1), size, g, p, g.height, j);
      }
    }
  }

  /**
   * The last glyph that writes a pixel decides it: if placement `i` copies
   * pixel (gx, gy) of its glyph without sticking out on the right, and no
   * later placement writes that index, the atlas holds the glyph's byte.
   */
  lemma {:induction false} PaintLastWriter(size: int, glyphs: seq<Image>, ps: seq<Placement>, k: int, i: int, gx: int, gy: int)
    requires Paintable(size, glyphs, ps) && 0 <= i < k <= |ps| && ps[i].copied
    requires 0 <= ps[i].x && ps[i].x + glyphs[i].width <= size
    requires 0 <= gx < glyphs[i].width && 0 <= gy < glyphs[i].height
    requires forall l :: i < l < k ==> !Covers(size, glyphs[l], ps[l], RowBase(size, ps[i], gy) + gx)
    ensures 0 <= RowBase(size, ps[i], gy) + gx < size * size
    ensures gy * glyphs[i].width + gx < |glyphs[i].data|
      && Paint(size, glyphs, ps, k)[RowBase(size, ps[i], gy) + gx] == glyphs[i].data[gy * glyphs[i].width + gx]
    decreases k
  {
    var g := glyphs[i];
    var j := RowBase(size, ps[i], gy) + gx;
    RowInBounds(size, g, ps[i], gy);
    if k - 1 == i {
      BlitRowsInside(Paint(size, glyphs, ps, i), size, g, ps[i], g.height, gx, gy);
    } else {
      PaintLastWriter(size, glyphs, ps, k - 1, i, gx, gy);
      var h, p := glyphs[k - 1], ps[k - 1];
      if p.copied {
        assert !Covers(size, h, p, j);
        BlitRowsOutside(Paint(size, glyphs, ps, k - 1), size, h, p, h.height, j);
      }
    }
  }

  // ---------------------------------------------------------------------------
  // Row-fill packing

  /** A row-fill cursor: where the next glyph goes. */
  datatype Cursor = Cursor(x: int, y: int)

  /** The cursor moved right past a glyph of width `w` and its padding. */
  function Right(c: Cursor, w: int, padding: int): int {
    c.x + w + 2 * padding
  }

  /** The move past a glyph of width `w` reaches the right bound `size - w - padding`. */
  predicate Wraps(c: Cursor, w: int, padding: int, size: int) {
    Right(c, w, padding) >= size - w - padding
  }

  /** The cursor after a glyph of width `w`: along the row, or at the start of the next one. */
  function MoveCursor(c: Cursor, w: int, padding: int, fontSize: int, size: int): Cursor {
    if Wraps(c, w, padding, size) then Cursor(padding, c.y + fontSize + 2 * padding)
    else Cursor(Right(c, w, padding), c.y)
  }

  /** The glyph at `c` is the last one: the wrap after it passes `size - fontSize - padding`. */
  predicate Stops(c: Cursor, w: int, padding: int, fontSize: int, size: int) {
    Wraps(c, w, padding, size) && c.y + fontSize + 2 * padding > size - fontSize - padding
  }

  /** The row-fill positions of glyphs `i..`, the first at `c`. */
  function RowFill(glyphs: seq<Image>, i: int, c: Cursor, padding: int, fontSize: int, size: int): (cs: seq<Cursor>)
    requires 0 <= i <= |glyphs|
    ensures |cs| <= |glyphs| - i
    ensures i < |glyphs| ==> |cs| >= 1 && cs[0] == c
    decreases |glyphs| - i
  {
    if i == |glyphs| then []
    else if Stops(c, glyphs[i].width, padding, fontSize, size) then [c]
    else [c] + RowFill(glyphs, i + 1, MoveCursor(c, glyphs[i].width, padding, fontSize, size), padding, fontSize, size)
  }

  /** Row-fill positions of all glyphs, from (padding, padding). */
  function RowFillAll(glyphs: seq<Image>, padding: int, fontSize: int, size: int): (cs: seq<Cursor>)
    ensures |cs| <= |glyphs|
    ensures |glyphs| > 0 ==> |cs| >= 1 && cs[0] == Cursor(padding, padding)
  {
    RowFill(glyphs, 0, Cursor(padding, padding), padding, fontSize, size)
  }

  /** Every row-fill cursor becomes a copied placement. */
  function CopiedPlacements(cs: seq<Cursor>): (ps: seq<Placement>)
    ensures |ps| == |cs|
    ensures forall k :: 0 <= k < |cs| ==> ps[k] == Placement(cs[k].x, cs[k].y, true)
  {
    seq(|cs|, k requires 0 <= k < |cs| => Placement(cs[k].x, cs[k].y, true))
  }

  /**
   * Each placed glyph but the last did not stop the packing, and the next
   * one sits where `MoveCursor` moves the cursor.
   */
  lemma {:induction false} RowFillStep(glyphs: seq<Image>, i: int, c: Cursor, padding: int, fontSize: int, size: int, k: int)
    requires 0 <= i <= |glyphs|
    requires 0 <= k < |RowFill(glyphs, i, c, padding, fontSize, size)| - 1
    ensures var cs := RowFill(glyphs, i, c, padding, fontSize, size);
      !Stops(cs[k], glyphs[i + k].width, padding, fontSize, size)
      && cs[k + 1] == MoveCursor(cs[k], glyphs[i + k].width, padding, fontSize, size)
    decreases k
  {
    var c' := MoveCursor(c, glyphs[i].width, padding, fontSize, size);
    if k > 0 {
      RowFillStep(glyphs, i + 1, c', padding, fontSize, size, k - 1);
    }
  }

  /** When fewer glyphs were placed than given, the last placed one stopped the packing. */
  lemma {:induction false} RowFillStop(glyphs: seq<Image>, i: int, c: Cursor, padding: int, fontSize: int, size: int)
    requires 0 <= i <= |glyphs|
    ensures var cs := RowFill(glyphs, i, c, padding, fontSize, size);
      0 < |cs| < |glyphs| - i ==> Stops(cs[|cs| - 1], glyphs[i + |cs| - 1].width, padding, fontSize, size)
    decreases |glyphs| - i
  {
    if i < |glyphs| && !Stops(c, glyphs[i].width, padding, fontSize, size) {
      RowFillStop(glyphs, i + 1, MoveCursor(c, glyphs[i].width, padding, fontSize, size), padding, fontSize, size);
    }
  }

  /**
   * Glyphs on the same row never overlap: with non-negative widths and
   * padding, and a positive row pitch, rows only move down, and a later
   * glyph either sits on a lower row or starts at least `width + 2*padding`
   * to the right of an earlier one.
   */
  lemma {:induction false} RowFillSameRowDisjoint(glyphs: seq<Image>, padding: int, fontSize: int, size: int, k: int, l: int)
    requires padding >= 0 && fontSize + 2 * padding > 0
    requires forall j :: 0 <= j < |glyphs| ==> glyphs[j].width >= 0
    requires 0 <= k < l < |RowFillAll(glyphs, padding, fontSize, size)|
    ensures var cs := RowFillAll(glyphs, padding, fontSize, size);
      cs[k].y <= cs[l].y && (cs[k].y < cs[l].y || Right(cs[k], glyphs[k].width, padding) <= cs[l].x)
    decreases l - k
  {
    RowFillStep(glyphs, 0, Cursor(padding, padding), padding, fontSize, size, l - 1);
    if k < l - 1 {
      RowFillSameRowDisjoint(glyphs, padding, fontSize, size, k, l - 1);
    }
  }

  /**
   * With non-negative widths and padding, every cursor is at least at
   * (padding, padding), and every row after the first starts at most at
   * `size - fontSize - padding`.
   */
  lemma {:induction false} CursorFromPadding(glyphs: seq<Image>, padding: int, fontSize: int, size: int, k: int)
    requires padding >= 0 && fontSize + 2 * padding > 0
    requires forall j :: 0 <= j < |glyphs| ==> glyphs[j].width >= 0
    requires 0 <= k < |RowFillAll(glyphs, padding, fontSize, size)|
    ensures var c := RowFillAll(glyphs, padding, fontSize, size)[k];
      c.x >= padding && c.y >= padding && (c.y == padding || c.y <= size - fontSize - padding)
    decreases k
  {
    if k > 0 {
      RowFillStep(glyphs, 0, Cursor(padding, padding), padding, fontSize, size, k - 1);
      CursorFromPadding(glyphs, padding, fontSize, size, k - 1);
    }
  }

  // ---------------------------------------------------------------------------
  // The atlas builder

  /** The skyline solver's answer for one glyph: its padded rectangle's corner and whether it fit. */
  datatype Packed = Packed(x: int, y: int, wasPacked: bool)

  /** The skyline branch copies each packed glyph to the solver's corner plus the padding. */
  function SkylinePlacements(packed: seq<Packed>, padding: int): (ps: seq<Placement>)
    ensures |ps| == |packed|
    ensures forall i :: 0 <= i < |packed| ==>
      ps[i] == Placement(packed[i].x + padding, packed[i].y + padding, packed[i].wasPacked)
  {
    seq(|packed|, i requires 0 <= i < |packed| => Placement(packed[i].x + padding, packed[i].y + padding, packed[i].wasPacked))
  }

  /** The glyph bitmaps of the first `n` characters. */
  function Glyphs(chars: seq<CharInfo>, n: int): (glyphs: seq<Image>)
    requires 0 <= n <= |chars|
    ensures |glyphs| == n && forall i :: 0 <= i < n ==> glyphs[i] == chars[i].image
  {
    seq(n, i requires 0 <= i < n => chars[i].image)
  }

  /** The placements a pack method produces: row-fill (0), skyline (1), or none. */
  function Placements(glyphs: seq<Image>, padding: int, fontSize: int, size: int, packMethod: int, packed: seq<Packed>): seq<Placement> {
    if packMethod == 0 then CopiedPlacements(RowFillAll(glyphs, padding, fontSize, size))
    else if packMethod == 1 then SkylinePlacements(packed, padding)
    else []
  }

  /** What `GenImageFontAtlas` demands so that every atlas write stays inside the buffer. */
  predicate AtlasInputs(chars: seq<CharInfo>, charsCount: int, fontSize: int, padding: int, packMethod: int,
                        imageSize: int, packed: seq<Packed>) {
    var n := GlyphCount(charsCount);
    n <= |chars| && imageSize >= 0
    && (packMethod == 1 ==> |packed| == n)
    && Paintable(imageSize, Glyphs(chars, n), Placements(Glyphs(chars, n), padding, fontSize, imageSize, packMethod, packed))
  }

  /** The rectangle table entry of a placed glyph: its corner and its own size. */
  function GlyphRect(p: Placement, g: Image): Rect {
    Rect(p.x, p.y, g.width, g.height)
  }

  /** Copies glyph `g` into the grayscale atlas at `p`, row by row as the C loops do. */
  method CopyGlyph(atlas: array<byte>, size: int, g: Image, p: Placement)
    requires size >= 0 && atlas.Length == size * size && GlyphOk(g) && FitsFlat(size, g, p)
    modifies atlas
    ensures atlas[..] == Blit(old(atlas[..]), size, g, p)
  {
    ghost var start := atlas[..];
    if g.width == 0 {
      return;
    }
    var y := 0;
    while y < g.height
      invariant 0 <= y <= g.height
      invariant atlas[..] == BlitRows(start, size, g, p, y)
    {
      CopyGlyphRow(atlas, size, g, p, y);
      BlitRowsNext(start, size, g, p, y);
      y := y + 1;
    }
  }

  /** Copying one row more splices that row into the buffer. */
  lemma BlitRowsNext(buf: seq<byte>, size: int, g: Image, p: Placement, y: int)
    requires size >= 0 && |buf| == size * size && GlyphOk(g) && FitsFlat(size, g, p)
    requires 0 <= y < g.height && g.width > 0
    ensures RowBase(size, p, y) >= 0 && RowBase(size, p, y) + g.width <= size * size
    ensures BlitRows(buf, size, g, p, y + 1) == Splice(BlitRows(buf, size, g, p, y), RowBase(size, p, y), GlyphRow(g, y))
  {
    RowInBounds(size, g, p, y);
  }

  /** The inner C loop: row `y` of `g` goes to the run starting at `RowBase(size, p, y)`. */
  method CopyGlyphRow(atlas: array<byte>, size: int, g: Image, p: Placement, y: int)
    requires size >= 0 && atlas.Length == size * size && GlyphOk(g) && FitsFlat(size, g, p)
    requires 0 <= y < g.height && g.width > 0
    modifies atlas
    ensures RowBase(size, p, y) >= 0 && RowBase(size, p, y) + g.width <= size * size
    ensures atlas[..] == Splice(old(atlas[..]), RowBase(size, p, y), GlyphRow(g, y))
  {
    RowInBounds(size, g, p, y);
    ghost var row := GlyphRow(g, y);
    ghost var base := RowBase(size, p, y);
    var x := 0;
    while x < g.width
      invariant 0 <= x <= g.width
      invariant forall j :: 0 <= j < atlas.Length ==>
        atlas[j] == if base <= j < base + x then row[j - base] else old(atlas[j])
    {
      RowIndex(x, y, g.width, g.height);
      assert (p.y + y) * size + (p.x + x) == base + x;
      atlas[(p.y + y) * size + (p.x + x)] := g.data[y * g.width + x];
      x := x + 1;
    }
    assert atlas[..] == Splice(old(atlas[..]), base, row);
  }

  /** The GRAY_ALPHA bytes of a grayscale buffer: 255 followed by each gray byte. */
  method GrayToGrayAlpha(gray: seq<byte>) returns (data: seq<byte>)
    ensures |data| == 2 * |gray|
    ensures forall i :: 0 <= i < |gray| ==> data[2 * i] == 255 && data[2 * i + 1] == gray[i]
  {
    var out := new byte[2 * |gray|];
    var i, k := 0, 0;
    while i < |gray|
      invariant 0 <= i <= |gray| && k == 2 * i
      invariant forall j :: 0 <= j < i ==> out[2 * j] == 255 && out[2 * j + 1] == gray[j]
    {
      out[k] := 255;
      out[k + 1] := gray[i];
      i, k := i + 1, k + 2;
    }
    data := out[..];
  }

  /**
   * The row-fill loop: copies each glyph at the cursor, records its
   * rectangle, then moves the cursor, wrapping to a new row and stopping as
   * the C loop does. Returns how many glyphs it placed.
   */
  method RowFillPack(gray: array<byte>, table: array<Rect>, size: int, glyphs: seq<Image>, padding: int, fontSize: int)
    returns (placed: int)
    requires gray.Length == size * size && table.Length == |glyphs|
    requires Paintable(size, glyphs, CopiedPlacements(RowFillAll(glyphs, padding, fontSize, size)))
    requires gray[..] == Paint(size, glyphs, CopiedPlacements(RowFillAll(glyphs, padding, fontSize, size)), 0)
    modifies gray, table
    ensures var ps := CopiedPlacements(RowFillAll(glyphs, padding, fontSize, size));
      placed == |ps| && gray[..] == Paint(size, glyphs, ps, |ps|)
      && forall j :: 0 <= j < placed ==> table[j] == GlyphRect(ps[j], glyphs[j])
    ensures forall j :: placed <= j < table.Length ==> table[j] == old(table[j])
  {
    ghost var cs := RowFillAll(glyphs, padding, fontSize, size);
    ghost var ps := CopiedPlacements(cs);
    var offsetX, offsetY := padding, padding;
    var i := 0;
    while i < |glyphs|
      invariant 0 <= i <= |cs| && cs[i..] == RowFill(glyphs, i, Cursor(offsetX, offsetY), padding, fontSize, size)
      invariant gray[..] == Paint(size, glyphs, ps, i)
      invariant forall j :: 0 <= j < i ==> table[j] == GlyphRect(ps[j], glyphs[j])
      invariant forall j :: i <= j < table.Length ==> table[j] == old(table[j])
    {
      ghost var c := Cursor(offsetX, offsetY);
      var w := glyphs[i].width;
      RowFillHead(glyphs, i, c, padding, fontSize, size, cs);
      PlaceGlyph(gray, table, size, glyphs, ps, i, offsetX, offsetY);
      offsetX := offsetX + (w + 2 * padding);
      if offsetX >= size - w - padding {
        offsetX := padding;
        offsetY := offsetY + (fontSize + 2 * padding);
        if offsetY > size - fontSize - padding {
          return i + 1;
        }
      }
      assert !Stops(c, w, padding, fontSize, size) && Cursor(offsetX, offsetY) == MoveCursor(c, w, padding, fontSize, size);
      i := i + 1;
    }
    return i;
  }

  /**
   * The cursor at glyph `i` heads the remaining positions; the packing stops
   * there exactly when `Stops` holds, and otherwise goes on from `MoveCursor`.
   */
  lemma RowFillHead(glyphs: seq<Image>, i: int, c: Cursor, padding: int, fontSize: int, size: int, cs: seq<Cursor>)
    requires 0 <= i < |glyphs| && i <= |cs| && cs[i..] == RowFill(glyphs, i, c, padding, fontSize, size)
    ensures i < |cs| && cs[i] == c && CopiedPlacements(cs)[i] == Placement(c.x, c.y, true)
    ensures Stops(c, glyphs[i].width, padding, fontSize, size) ==> |cs| == i + 1
    ensures !Stops(c, glyphs[i].width, padding, fontSize, size) ==>
      cs[i + 1..] == RowFill(glyphs, i + 1, MoveCursor(c, glyphs[i].width, padding, fontSize, size), padding, fontSize, size)
  {
    assert cs[i + 1..] == cs[i..][1..];
  }

  /** Copies glyph `i` to its placement and records its rectangle. */
  method PlaceGlyph(gray: array<byte>, table: array<Rect>, size: int, glyphs: seq<Image>, ghost ps: seq<Placement>, i: int, x: int, y: int)
    requires Paintable(size, glyphs, ps) && 0 <= i < |ps| && ps[i] == Placement(x, y, true)
    requires gray.Length == size * size && table.Length == |glyphs|
    requires gray[..] == Paint(size, glyphs, ps, i)
    requires forall j :: 0 <= j < i ==> table[j] == GlyphRect(ps[j], glyphs[j])
    modifies gray, table
    ensures gray[..] == Paint(size, glyphs, ps, i + 1)
    ensures forall j :: 0 <= j <= i ==> table[j] == GlyphRect(ps[j], glyphs[j])
    ensures forall j :: i < j < table.Length ==> table[j] == old(table[j])
  {
    var g := glyphs[i];
    CopyGlyph(gray, size, g, Placement(x, y, true));
    table[i] := Rect(x, y, g.width, g.height);
  }

  /**
   * The skyline copy-back: every glyph's rectangle is the solver's corner
   * plus the padding, and only glyphs the solver packed are copied.
   */
  method SkylinePack(gray: array<byte>, table: array<Rect>, size: int, glyphs: seq<Image>, padding: int, packed: seq<Packed>)
    requires gray.Length == size * size && table.Length == |glyphs| == |packed|
    requires Paintable(size, glyphs, SkylinePlacements(packed, padding))
    requires gray[..] == Paint(size, glyphs, SkylinePlacements(packed, padding), 0)
    modifies gray, table
    ensures var ps := SkylinePlacements(packed, padding);
      gray[..] == Paint(size, glyphs, ps, |ps|)
      && forall j :: 0 <= j < |glyphs| ==> table[j] == GlyphRect(ps[j], glyphs[j])
  {
    ghost var ps := SkylinePlacements(packed, padding);
    var i := 0;
    while i < |glyphs|
      invariant 0 <= i <= |glyphs|
      invariant gray[..] == Paint(size, glyphs, ps, i)
      invariant forall j :: 0 <= j < i ==> table[j] == GlyphRect(ps[j], glyphs[j])
    {
      var g := glyphs[i];
      table[i] := Rect(packed[i].x + padding, packed[i].y + padding, g.width, g.height);
      if packed[i].wasPacked {
        CopyGlyph(gray, size, g, Placement(packed[i].x + padding, packed[i].y + padding, true));
      }
      i := i + 1;
    }
  }

  /**
   * `GenImageFontAtlas` with the atlas side `imageSize` given (the C code
   * guesses it with float maths) and, for the skyline method, the solver's
   * answer `packed`. The atlas is GRAY_ALPHA, every even byte 255 and every
   * odd byte the painted grayscale value. Row-fill returns the rectangles
   * of the glyphs it placed; skyline one rectangle per glyph.
   */
  method GenImageFontAtlas(chars: seq<CharInfo>, charsCount: int, fontSize: int, padding: int, packMethod: int,
                           imageSize: int, packed: seq<Packed>) returns (atlas: Image, recs: seq<Rect>)
    requires AtlasInputs(chars, charsCount, fontSize, padding, packMethod, imageSize, packed)
    ensures var n := GlyphCount(charsCount);
      var glyphs := Glyphs(chars, n);
      var ps := Placements(glyphs, padding, fontSize, imageSize, packMethod, packed);
      var gray := Paint(imageSize, glyphs, ps, |ps|);
      atlas.width == imageSize && atlas.height == imageSize && atlas.mipmaps == 1
      && atlas.format == UncompressedGrayAlpha
      && |atlas.data| == 2 * (imageSize * imageSize)
      && (forall i :: 0 <= i < imageSize * imageSize ==> atlas.data[2 * i] == 255 && atlas.data[2 * i + 1] == gray[i])
      && |recs| == |ps|
      && (forall i :: 0 <= i < |ps| ==> recs[i] == GlyphRect(ps[i], glyphs[i]))
  {
    var n := GlyphCount(charsCount);
    var glyphs := Glyphs(chars, n);
    var size := imageSize;
    ghost var ps := Placements(glyphs, padding, fontSize, size, packMethod, packed);
    var gray := new byte[size * size](_ => 0);
    var table := new Rect[n](_ => Rect(0, 0, 0, 0));
    var placed := 0;
    if packMethod == 0 {
      placed := RowFillPack(gray, table, size, glyphs, padding, fontSize);
    } else if packMethod == 1 {
      SkylinePack(gray, table, size, glyphs, padding, packed);
      placed := n;
    } else {
      assert gray[..] == Paint(size, glyphs, ps, 0);
    }
    assert gray[..] == Paint(size, glyphs, ps, |ps|) && placed == |ps|;
    var data := GrayToGrayAlpha(gray[..]);
    atlas := Image(data, size, size, 1, UncompressedGrayAlpha);
    recs := table[..placed];
  }

  /**
   * Reading the finished atlas back with `GetImageData` gives white pixels
   * whose alpha is the painted coverage.
   */
  lemma AtlasReadsWhite(gray: seq<byte>, data: seq<byte>, size: int)
    requires size >= 0 && |gray| == size * size && |data| == 2 * |gray|
    requires forall i :: 0 <= i < |gray| ==> data[2 * i] == 255 && data[2 * i + 1] == gray[i]
    ensures var atlas := Image(data, size, size, 1, UncompressedGrayAlpha);
      Textures.HoldsPixels(atlas)
      && Textures.ImagePixels(atlas) == seq(size * size, i requires 0 <= i < size * size => Color(255, 255, 255, gray[i]))
  {
    var atlas := Image(data, size, size, 1, UncompressedGrayAlpha);
    assert Textures.BytesPerPixel(atlas.format) == 2;
  }
}
