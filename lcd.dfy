/** The software rasteriser of the ST7735 driver: drawing into a 160x80
    RGB565 framebuffer held as bytes, two per pixel, low byte first, row
    after row. The SPI traffic that ships the buffer to the panel is not
    part of this model; only what is written into the buffer is. */
module Lcd {
  import opened Machine

  const WIDTH: nat := 160
  const HEIGHT: nat := 80
  const FRAMEBUFFER_SIZE: nat := 25600   // WIDTH * HEIGHT * 2
  const POINT_COLOR: u16 := 0xFFFF
  const BACK_COLOR: u16 := 0x0000

  predicate OnScreen(x: int, y: int) { 0 <= x < WIDTH && 0 <= y < HEIGHT }

  /** `(y * WIDTH + x) * 2`, the byte index of a pixel. */
  function ByteIndex(x: nat, y: nat): (i: nat)
    requires OnScreen(x, y)
    ensures i + 1 < FRAMEBUFFER_SIZE
  {
    (y * WIDTH + x) * 2
  }

  /** Two different pixels never share a byte. */
  lemma ByteIndexSeparates(x: nat, y: nat, px: nat, py: nat)
    requires OnScreen(x, y) && OnScreen(px, py) && (x, y) != (px, py)
    ensures ByteIndex(px, py) != ByteIndex(x, y) && ByteIndex(px, py) != ByteIndex(x, y) + 1
    ensures ByteIndex(px, py) + 1 != ByteIndex(x, y)
  {
  }

  /** The colour a pixel has in a framebuffer. */
  function Pixel(fb: seq<u8>, x: nat, y: nat): u16
    requires |fb| == FRAMEBUFFER_SIZE && OnScreen(x, y)
  {
    fb[ByteIndex(x, y)] as int + 256 * fb[ByteIndex(x, y) + 1] as int
  }

  /** `setPixel`: off-screen coordinates are ignored; otherwise the low
      byte of the colour goes to the pixel's first byte and the high byte
      to its second. */
  function SetPixelSpec(fb: seq<u8>, x: int, y: int, color: u16): (r: seq<u8>)
    requires |fb| == FRAMEBUFFER_SIZE
    ensures |r| == FRAMEBUFFER_SIZE
  {
    if !OnScreen(x, y) then fb
    else fb[ByteIndex(x, y) := color % 256][ByteIndex(x, y) + 1 := color / 256]
  }

  /** Every on-screen pixel inside the rectangle has `color`, and every
      other pixel has the colour it had in `fb0`. */
  ghost predicate RectPainted(fb0: seq<u8>, fb: seq<u8>, x: int, y: int, w: int, h: int, color: u16)
  {
    && |fb0| == FRAMEBUFFER_SIZE && |fb| == FRAMEBUFFER_SIZE
    && forall px: nat, py: nat {:trigger Pixel(fb, px, py)} :: OnScreen(px, py) ==>
         Pixel(fb, px, py) == if x <= px < x + w && y <= py < y + h then color else Pixel(fb0, px, py)
  }

  /** Setting a pixel paints exactly that pixel: reading it back gives the
      colour, and no other pixel changes. */
  lemma SetPixelPaintsOnePixel(fb: seq<u8>, x: int, y: int, color: u16)
    requires |fb| == FRAMEBUFFER_SIZE
    ensures RectPainted(fb, SetPixelSpec(fb, x, y, color), x, y, 1, 1, color)
  {
    var r := SetPixelSpec(fb, x, y, color);
    forall px: nat, py: nat | OnScreen(px, py)
      ensures Pixel(r, px, py) == if x <= px < x + 1 && y <= py < y + 1 then color else Pixel(fb, px, py)
    {
      if OnScreen(x, y) && (px, py) != (x, y) {
        ByteIndexSeparates(x, y, px, py);
      }
    }
  }

  /** `fillRect` part way through: rows `y .. y + rows - 1` of the
      rectangle are painted, and so are the first `cols` pixels of the row
      below them; every other pixel keeps its colour. */
  ghost predicate RowsPainted(fb0: seq<u8>, fb: seq<u8>, x: int, y: int, w: int, rows: int, cols: int, color: u16)
  {
    && |fb0| == FRAMEBUFFER_SIZE && |fb| == FRAMEBUFFER_SIZE
    && forall px: nat, py: nat {:trigger Pixel(fb, px, py)} :: OnScreen(px, py) ==>
         Pixel(fb, px, py)
         == if (x <= px < x + w && y <= py < y + rows) || (py == y + rows && x <= px < x + cols)
            then color else Pixel(fb0, px, py)
  }

  /** Painting the pixel after the last one painted extends the run. */
  lemma NextColumn(fb0: seq<u8>, fb: seq<u8>, x: int, y: int, w: int, rows: int, cols: int, color: u16)
    requires rows >= 0 && 0 <= cols < w && RowsPainted(fb0, fb, x, y, w, rows, cols, color)
    ensures RowsPainted(fb0, SetPixelSpec(fb, x + cols, y + rows, color), x, y, w, rows, cols + 1, color)
  {
    var fb' := SetPixelSpec(fb, x + cols, y + rows, color);
    SetPixelPaintsOnePixel(fb, x + cols, y + rows, color);
    forall px: nat, py: nat | OnScreen(px, py)
      ensures Pixel(fb', px, py)
           == if (x <= px < x + w && y <= py < y + rows) || (py == y + rows && x <= px < x + cols + 1)
              then color else Pixel(fb0, px, py)
    {
    }
  }

  /** A finished row is one more full row. */
  lemma NextRow(fb0: seq<u8>, fb: seq<u8>, x: int, y: int, w: int, rows: int, color: u16)
    requires rows >= 0 && RowsPainted(fb0, fb, x, y, w, rows, w, color)
    ensures RowsPainted(fb0, fb, x, y, w, rows + 1, 0, color)
  {
    forall px: nat, py: nat | OnScreen(px, py)
      ensures Pixel(fb, px, py) == if x <= px < x + w && y <= py < y + rows + 1 then color else Pixel(fb0, px, py)
    {
    }
  }

  /** The position of entry `(row, col)` in a row-major block of `h` rows
      of `w` entries. */
  function RowMajor(row: nat, col: nat, w: nat, h: nat): (i: nat)
    requires row < h && col < w
    ensures i < w * h
  {
    RowsFitInBlock(row + 1, h, w);
    row * w + col
  }

  lemma RowsFitInBlock(rows: nat, h: nat, w: nat)
    requires rows <= h
    ensures rows * w <= h * w
  {
  }

  /** The extent `fillRGBRect` keeps of a run of `size` pixels starting at
      `origin` on an axis `limit` pixels long: cut at the edge, never grown. */
  function ClipExtent(origin: nat, size: nat, limit: nat): (e: nat)
    requires origin < limit
    ensures e <= size && origin + e <= limit
    ensures e == size || origin + e == limit
    ensures size > 0 ==> e > 0
  {
    if origin + size > limit then limit - origin else size
  }

  /** Pixels inside the `w` by `h` box at `(x, y)` take their colour from
      `data`, read row after row, `w` entries per row; every other pixel
      keeps its colour. */
  ghost predicate BoxCopied(fb0: seq<u8>, fb: seq<u8>, x: int, y: int, w: nat, h: nat, data: seq<u16>)
  {
    && |fb0| == FRAMEBUFFER_SIZE && |fb| == FRAMEBUFFER_SIZE && |data| >= w * h
    && forall px: nat, py: nat {:trigger Pixel(fb, px, py)} :: OnScreen(px, py) ==>
         Pixel(fb, px, py)
         == if x <= px < x + w && y <= py < y + h then data[RowMajor(py - y, px - x, w, h)]
            else Pixel(fb0, px, py)
  }

  /** `fillRGBRect` part way through: `rows` whole rows of the box are
      copied, and the first `cols` pixels of the row below them. */
  ghost predicate RowsCopied(fb0: seq<u8>, fb: seq<u8>, x: int, y: int, w: nat, h: nat, data: seq<u16>, rows: nat, cols: nat)
  {
    && |fb0| == FRAMEBUFFER_SIZE && |fb| == FRAMEBUFFER_SIZE && |data| >= w * h
    && forall px: nat, py: nat {:trigger Pixel(fb, px, py)} :: OnScreen(px, py) ==>
         Pixel(fb, px, py)
         == if x <= px < x + w && y <= py < y + h && (py < y + rows || (py == y + rows && px < x + cols))
            then data[RowMajor(py - y, px - x, w, h)]
            else Pixel(fb0, px, py)
  }

  /** Copying the next pixel of the box extends the copied part by one. */
  lemma CopyOnePixel(fb0: seq<u8>, before: seq<u8>, x: nat, y: nat, w: nat, h: nat, data: seq<u16>, row: nat, col: nat)
    requires RowsCopied(fb0, before, x, y, w, h, data, row, col)
    requires row < h && col < w
    ensures RowsCopied(fb0, SetPixelSpec(before, x + col, y + row, data[RowMajor(row, col, w, h)]),
                       x, y, w, h, data, row, col + 1)
  {
    SetPixelPaintsOnePixel(before, x + col, y + row, data[RowMajor(row, col, w, h)]);
  }

  /** A finished row is the start of the next one; all rows finished is
      the whole box. */
  lemma CopyNextRow(fb0: seq<u8>, fb: seq<u8>, x: nat, y: nat, w: nat, h: nat, data: seq<u16>, row: nat)
    requires RowsCopied(fb0, fb, x, y, w, h, data, row, w)
    ensures RowsCopied(fb0, fb, x, y, w, h, data, row + 1, 0)
    ensures row + 1 == h ==> BoxCopied(fb0, fb, x, y, w, h, data)
  {
  }

  /** The buffer is a whole number of rows of pixels. */
  lemma EveryByteBelongsToAPixel(k: nat)
    requires k < FRAMEBUFFER_SIZE
    ensures OnScreen((k / 2) % WIDTH, (k / 2) / WIDTH)
    ensures k == ByteIndex((k / 2) % WIDTH, (k / 2) / WIDTH) + k % 2
  {
  }

  // ---------------------------------------------------------------------
  // Glyphs

  /** The two bitmap fonts, `ascii_1206` and `ascii_1608`: one glyph per
      printable ASCII character from the space on. A glyph is a column
      after another, two bytes per column, top row in the high bit. */
  datatype Fonts = Fonts(ascii1206: seq<seq<u8>>, ascii1608: seq<seq<u8>>)

  const GLYPH_COUNT: nat := 95

  predicate FontsWellFormed(f: Fonts)
  {
    && |f.ascii1206| == GLYPH_COUNT && |f.ascii1608| == GLYPH_COUNT
    && (forall g :: g in f.ascii1206 ==> |g| == 12)
    && (forall g :: g in f.ascii1608 ==> |g| == 16)
  }

  /** The font sizes there are tables for. */
  predicate GlyphSize(size: int) { size == 12 || size == 16 }

  /** Characters the fonts have a glyph for. */
  predicate Drawable(c: u8) { 0x20 <= c < 0x20 + GLYPH_COUNT }

  /** Glyph width: 6 pixels for the 12-pixel font, 8 otherwise. */
  function FontWidth(size: int): (w: nat)
    ensures w == 6 || w == 8
  {
    if size == 12 then 6 else 8
  }

  function Glyph(f: Fonts, c: u8, size: int): (g: seq<u8>)
    requires FontsWellFormed(f) && Drawable(c) && GlyphSize(size)
    ensures |g| == size
  {
    var g := if size == 12 then f.ascii1206[c - 0x20] else f.ascii1608[c - 0x20];
    assert g in (if size == 12 then f.ascii1206 else f.ascii1608);
    g
  }

  /** `2^k` for the bit positions of a byte. */
  function Weight(k: nat): (w: nat)
    requires k <= 8
    ensures w >= 1
  {
    if k == 0 then 1 else if k == 1 then 2 else if k == 2 then 4 else if k == 3 then 8
    else if k == 4 then 16 else if k == 5 then 32 else if k == 6 then 64 else if k == 7 then 128
    else 256
  }

  /** Bit `k` of a byte, bit 0 being the least significant. */
  predicate Bit(b: u8, k: nat)
    requires k < 8
  {
    (b / Weight(k)) % 2 == 1
  }

  /** The colour of the glyph cell in row `row` and column `col`: column
      `col` is bytes `2 * col` (rows 0 to 7) and `2 * col + 1` (rows 8 to
      15), and in each byte the most significant bit is the top row. */
  function GlyphCell(glyph: seq<u8>, size: int, row: nat, col: nat): (color: u16)
    requires GlyphSize(size) && |glyph| == size
    requires row < size && col < FontWidth(size)
    ensures color == POINT_COLOR || color == BACK_COLOR
  {
    if Bit(glyph[2 * col + row / 8], 7 - row % 8) then POINT_COLOR else BACK_COLOR
  }

  /** Shifting a byte left `k` times within 8 bits brings bit `7 - k` to
      the top. */
  lemma TopBitAfterShifts(b: u8, k: nat)
    requires k < 8
    ensures (b * Weight(k)) % 256 >= 128 <==> Bit(b, 7 - k)
  {
    if k == 0 {
      TopBitAfter0Shifts(b);
    } else if k == 1 {
      TopBitAfter1Shifts(b);
    } else if k == 2 {
      TopBitAfter2Shifts(b);
    } else if k == 3 {
      TopBitAfter3Shifts(b);
    } else if k == 4 {
      TopBitAfter4Shifts(b);
    } else if k == 5 {
      TopBitAfter5Shifts(b);
    } else if k == 6 {
      TopBitAfter6Shifts(b);
    } else if k == 7 {
      TopBitAfter7Shifts(b);
    }
  }

  /** Euclidean division is determined by any quotient and remainder
      that fit. */
  lemma DivModOf(a: int, m: int, q: int, r: int)
    requires m > 0 && a == q * m + r && 0 <= r < m
    ensures a / m == q && a % m == r
  {
    var d := a / m - q;
    assert d * m == r - a % m;
    MultipleOutside(d, m);
  }

  /** A nonzero multiple of `m` is at least `m` away from zero. */
  lemma MultipleOutside(d: int, m: int)
    requires m > 0
    ensures d >= 1 ==> d * m >= m
    ensures d <= -1 ==> d * m <= -m
  {
    if d >= 1 {
      assert d * m == m + (d - 1) * m;
    } else if d <= -1 {
      assert d * m == -m + (d + 1) * m;
    }
  }

  lemma TopBitAfter0Shifts(b: u8)
    ensures (b * 1) % 256 >= 128 <==> (b / 128) % 2 == 1
  {
    var hi, lo := b / 256, b % 256;
    DivModOf(b * 1, 256, hi, lo * 1);
    DivModOf(b, 128, 2 * hi + lo / 128, lo % 128);
    DivModOf(b / 128, 2, hi, lo / 128);
  }

  lemma TopBitAfter1Shifts(b: u8)
    ensures (b * 2) % 256 >= 128 <==> (b / 64) % 2 == 1
  {
    var hi, lo := b / 128, b % 128;
    DivModOf(b * 2, 256, hi, lo * 2);
    DivModOf(b, 64, 2 * hi + lo / 64, lo % 64);
    DivModOf(b / 64, 2, hi, lo / 64);
  }

  lemma TopBitAfter2Shifts(b: u8)
    ensures (b * 4) % 256 >= 128 <==> (b / 32) % 2 == 1
  {
    var hi, lo := b / 64, b % 64;
    DivModOf(b * 4, 256, hi, lo * 4);
    DivModOf(b, 32, 2 * hi + lo / 32, lo % 32);
    DivModOf(b / 32, 2, hi, lo / 32);
  }

  lemma TopBitAfter3Shifts(b: u8)
    ensures (b * 8) % 256 >= 128 <==> (b / 16) % 2 == 1
  {
    var hi, lo := b / 32, b % 32;
    DivModOf(b * 8, 256, hi, lo * 8);
    DivModOf(b, 16, 2 * hi + lo / 16, lo % 16);
    DivModOf(b / 16, 2, hi, lo / 16);
  }

  lemma TopBitAfter4Shifts(b: u8)
    ensures (b * 16) % 256 >= 128 <==> (b / 8) % 2 == 1
  {
    var hi, lo := b / 16, b % 16;
    DivModOf(b * 16, 256, hi, lo * 16);
    DivModOf(b, 8, 2 * hi + lo / 8, lo % 8);
    DivModOf(b / 8, 2, hi, lo / 8);
  }

  lemma TopBitAfter5Shifts(b: u8)
    ensures (b * 32) % 256 >= 128 <==> (b / 4) % 2 == 1
  {
    var hi, lo := b / 8, b % 8;
    DivModOf(b * 32, 256, hi, lo * 32);
    DivModOf(b, 4, 2 * hi + lo / 4, lo % 4);
    DivModOf(b / 4, 2, hi, lo / 4);
  }

  lemma TopBitAfter6Shifts(b: u8)
    ensures (b * 64) % 256 >= 128 <==> (b / 2) % 2 == 1
  {
    var hi, lo := b / 4, b % 4;
    DivModOf(b * 64, 256, hi, lo * 64);
    DivModOf(b, 2, 2 * hi + lo / 2, lo % 2);
    DivModOf(b / 2, 2, hi, lo / 2);
  }

  lemma TopBitAfter7Shifts(b: u8)
    ensures (b * 128) % 256 >= 128 <==> (b / 1) % 2 == 1
  {
    var hi, lo := b / 2, b % 2;
    DivModOf(b * 128, 256, hi, lo * 128);
    DivModOf(b, 1, 2 * hi + lo / 1, lo % 1);
    DivModOf(b / 1, 2, hi, lo / 1);
  }

  /** One more left shift of the 8-bit `temp`. */
  lemma ShiftAgain(b: u8, k: nat)
    requires k < 8
    ensures ((b * Weight(k)) % 256 * 2) % 256 == (b * Weight(k + 1)) % 256
  {
    var m := b * Weight(k);
    assert Weight(k + 1) == 2 * Weight(k);
    assert b * Weight(k + 1) == 2 * m;
    DoubleMod(m);
  }

  lemma DoubleMod(m: nat)
    ensures (m % 256 * 2) % 256 == (2 * m) % 256
  {
    var q, r := m / 256, m % 256;
    assert 2 * m == q * 512 + 2 * r;
  }

  /** `true` when `(px, py)` lies in the `w` by `h` box at `(x, y)`. */
  predicate InBox(x: int, y: int, w: int, h: int, px: int, py: int)
  {
    x <= px < x + w && y <= py < y + h
  }

  /** What `drawChar` keeps of a glyph box: its top-left visible pixel
      `(x0, y0)`, the glyph cell drawn there, and the visible size. */
  datatype Clip = Clip(x0: nat, y0: nat, xOffset: nat, yOffset: nat, visibleWidth: nat, visibleHeight: nat)

  /** `k` is the on-screen part of the glyph box at `(x, y)`: a non-empty
      box inside the screen, at the right offset into the glyph, holding
      exactly the on-screen pixels of the glyph box. */
  ghost predicate ClipFits(x: int, y: int, size: int, k: Clip)
  {
    && 0 < k.visibleWidth && 0 < k.visibleHeight
    && k.x0 + k.visibleWidth <= WIDTH && k.y0 + k.visibleHeight <= HEIGHT
    && k.xOffset + k.visibleWidth <= FontWidth(size) && k.yOffset + k.visibleHeight <= size
    && k.x0 == x + k.xOffset && k.y0 == y + k.yOffset
    && (k.xOffset == 0 || k.x0 == 0) && (k.yOffset == 0 || k.y0 == 0)
    && forall px, py {:trigger InBox(x, y, FontWidth(size), size, px, py)} :: OnScreen(px, py) ==>
         (InBox(x, y, FontWidth(size), size, px, py) <==> InBox(k.x0, k.y0, k.visibleWidth, k.visibleHeight, px, py))
  }

  /** The clipping of `drawChar`: nothing when the glyph box lies wholly
      off the screen, and otherwise the part of the box on the screen. */
  function ClipGlyph(x: i16, y: i16, size: int): (c: Option<Clip>)
    requires GlyphSize(size)
    ensures c.None? ==> forall px, py {:trigger InBox(x, y, FontWidth(size), size, px, py)} ::
      OnScreen(px, py) ==> !InBox(x, y, FontWidth(size), size, px, py)
    ensures c.Some? ==> ClipFits(x, y, size, c.value)
  {
    var fw: int := FontWidth(size);
    if y >= HEIGHT || x >= WIDTH || y <= -size || x <= -fw then None
    else
      var xOffset := if x < 0 then -x else 0;
      var yOffset := if y < 0 then -y else 0;
      var x0 := x + xOffset;
      var y0 := y + yOffset;
      var vw := if x0 + (fw - xOffset) > WIDTH then WIDTH - x0 else fw - xOffset;
      var vh := if y0 + (size - yOffset) > HEIGHT then HEIGHT - y0 else size - yOffset;
      Some(Clip(x0, y0, xOffset, yOffset, vw, vh))
  }

  /** The cells of a glyph, row by row. */
  ghost function GlyphCells(glyph: seq<u8>, size: int): (cells: seq<seq<u16>>)
    requires GlyphSize(size) && |glyph| == size
    ensures |cells| == size
    ensures forall row :: 0 <= row < size ==> |cells[row]| == FontWidth(size)
  {
    seq(size, row requires 0 <= row < size =>
      seq(FontWidth(size), col requires 0 <= col < FontWidth(size) => GlyphCell(glyph, size, row, col)))
  }

  /** One cell of `GlyphCells`. */
  lemma GlyphCellsAt(glyph: seq<u8>, size: int, row: nat, col: nat)
    requires GlyphSize(size) && |glyph| == size && row < size && col < FontWidth(size)
    ensures GlyphCells(glyph, size)[row][col] == GlyphCell(glyph, size, row, col)
  {
  }

  /** `cells` is a block of `h` rows of `w` colours. */
  ghost predicate Block(cells: seq<seq<u16>>, w: nat, h: nat)
  {
    |cells| == h && forall row :: 0 <= row < h ==> |cells[row]| == w
  }

  /** Every on-screen pixel of the first `rows` rows of the `w` by `h`
      block `cells` placed at `(x, y)` shows its cell; every other pixel
      keeps its colour. */
  ghost predicate CellsShown(fb0: seq<u8>, fb: seq<u8>, cells: seq<seq<u16>>, w: nat, h: nat, x: int, y: int, rows: nat)
  {
    && Block(cells, w, h) && rows <= h
    && |fb0| == FRAMEBUFFER_SIZE && |fb| == FRAMEBUFFER_SIZE
    && forall px: nat, py: nat {:trigger Pixel(fb, px, py)} :: OnScreen(px, py) ==>
         Pixel(fb, px, py)
         == if InBox(x, y, w, rows, px, py) then cells[py - y][px - x] else Pixel(fb0, px, py)
  }

  /** Copying visible row `r` of the block extends the rows shown by one. */
  lemma ShowNextRow(fb0: seq<u8>, before: seq<u8>, after: seq<u8>, cells: seq<seq<u16>>, size: int,
                    x: int, y: int, k: Clip, r: nat, data: seq<u16>)
    requires GlyphSize(size) && ClipFits(x, y, size, k) && r < k.visibleHeight
    requires CellsShown(fb0, before, cells, FontWidth(size), size, x, y, k.yOffset + r)
    requires |data| == k.visibleWidth
    requires forall j :: 0 <= j < |data| ==> data[j] == cells[k.yOffset + r][k.xOffset + j]
    requires BoxCopied(before, after, k.x0, k.y0 + r, k.visibleWidth, 1, data)
    ensures CellsShown(fb0, after, cells, FontWidth(size), size, x, y, k.yOffset + r + 1)
  {
    var fw := FontWidth(size);
    forall px: nat, py: nat | OnScreen(px, py)
      ensures Pixel(after, px, py)
              == if InBox(x, y, fw, k.yOffset + r + 1, px, py) then cells[py - y][px - x]
                 else Pixel(fb0, px, py)
    {
      var inRow := InBox(k.x0, k.y0 + r, k.visibleWidth, 1, px, py);
      assert Pixel(after, px, py)
             == if inRow then data[RowMajor(py - (k.y0 + r), px - k.x0, k.visibleWidth, 1)]
                else Pixel(before, px, py);
      if py == k.y0 + r {
        assert InBox(x, y, fw, size, px, py) <==> InBox(k.x0, k.y0, k.visibleWidth, k.visibleHeight, px, py);
      }
    }
  }

  /** Before the first visible row, the rows above the screen count as
      shown; after the last one, the rows below it do. */
  lemma RowsOffScreen(fb0: seq<u8>, fb: seq<u8>, cells: seq<seq<u16>>, size: int, x: int, y: int, k: Clip)
    requires GlyphSize(size) && Block(cells, FontWidth(size), size) && ClipFits(x, y, size, k)
    requires |fb0| == FRAMEBUFFER_SIZE
    ensures CellsShown(fb0, fb0, cells, FontWidth(size), size, x, y, k.yOffset)
    ensures CellsShown(fb0, fb, cells, FontWidth(size), size, x, y, k.yOffset + k.visibleHeight) ==>
            CellsShown(fb0, fb, cells, FontWidth(size), size, x, y, size)
  {
    var fw := FontWidth(size);
    if CellsShown(fb0, fb, cells, fw, size, x, y, k.yOffset + k.visibleHeight) {
      forall px: nat, py: nat | OnScreen(px, py)
        ensures Pixel(fb, px, py)
                == if InBox(x, y, fw, size, px, py) then cells[py - y][px - x] else Pixel(fb0, px, py)
      {
        assert InBox(x, y, fw, size, px, py) <==> InBox(k.x0, k.y0, k.visibleWidth, k.visibleHeight, px, py);
      }
    }
  }

  // As written, `drawChar` hands `fillRGBRect` the address of cell
  // `(yOffset, xOffset)` of its row-major cell array together with the
  // visible width, which `fillRGBRect` also uses as the stride. The rows of
  // the cell array are `FontWidth(size)` long, so when the glyph is clipped
  // at the left or right edge each row after the first is read from the
  // wrong place (lcd.cpp:193,274).

  lemma FlatIndexInRange(i: nat, size: int)
    requires GlyphSize(size) && i < size * FontWidth(size)
    ensures i / FontWidth(size) < size
  {
  }

  lemma ProductsGrow(a: nat, b: nat, c: nat, d: nat)
    requires a <= c && b <= d
    ensures a * b <= c * d
  {
    assert a * b <= c * b;
  }

  /** What the as-written call reads stays inside the cell array. */
  lemma AsWrittenReadsInside(size: int, k: Clip)
    requires GlyphSize(size) && 0 < k.visibleHeight
    requires k.xOffset + k.visibleWidth <= FontWidth(size) && k.yOffset + k.visibleHeight <= size
    ensures k.yOffset * FontWidth(size) + k.xOffset + k.visibleWidth * k.visibleHeight <= size * FontWidth(size)
  {
    var fw := FontWidth(size);
    var a, b := fw - k.xOffset, size - k.yOffset;
    ProductsGrow(k.visibleWidth, k.visibleHeight, a, b);
    SplitProduct(fw, k.xOffset, b);
    ProductsGrow(k.xOffset, 1, k.xOffset, b);
    SplitProduct(size, k.yOffset, fw);
  }

  /** `(x - y) * z` distributes. */
  lemma SplitProduct(x: int, y: int, z: int)
    ensures (x - y) * z == x * z - y * z
  {
  }

  /** The row of position `i` of the row-major cell array. */
  function FlatRow(i: nat, size: int): (row: nat)
    requires GlyphSize(size) && i < size * FontWidth(size)
    ensures row < size
  {
    FlatIndexInRange(i, size);
    i / FontWidth(size)
  }

  /** The cell at position `i` of the row-major cell array. */
  ghost function FlatCell(cells: seq<seq<u16>>, size: int, i: nat): u16
    requires GlyphSize(size) && Block(cells, FontWidth(size), size) && i < size * FontWidth(size)
  {
    cells[FlatRow(i, size)][i % FontWidth(size)]
  }

  /** The pixel block `fillRGBRect` reads in the as-written call. */
  ghost function AsWrittenData(cells: seq<seq<u16>>, size: int, k: Clip): (data: seq<u16>)
    requires GlyphSize(size) && Block(cells, FontWidth(size), size) && 0 < k.visibleHeight
    requires k.xOffset + k.visibleWidth <= FontWidth(size) && k.yOffset + k.visibleHeight <= size
    ensures |data| == k.visibleWidth * k.visibleHeight
  {
    AsWrittenReadsInside(size, k);
    var base := k.yOffset * FontWidth(size) + k.xOffset;
    var data := seq<u16>(k.visibleWidth * k.visibleHeight, i requires 0 <= i < k.visibleWidth * k.visibleHeight =>
      FlatCell(cells, size, base + i));
    data
  }

  /** Without horizontal clipping the as-written call reads the right
      cells. */
  lemma AsWrittenRightWhenNotClippedSideways(cells: seq<seq<u16>>, size: int, k: Clip, row: nat, col: nat)
    requires GlyphSize(size) && Block(cells, FontWidth(size), size) && 0 < k.visibleHeight
    requires k.xOffset + k.visibleWidth <= FontWidth(size) && k.yOffset + k.visibleHeight <= size
    requires k.visibleWidth == FontWidth(size)
    requires row < k.visibleHeight && col < k.visibleWidth
    ensures AsWrittenData(cells, size, k)[RowMajor(row, col, k.visibleWidth, k.visibleHeight)]
            == cells[k.yOffset + row][col]
  {
    var fw := FontWidth(size);
    var m := RowMajor(row, col, k.visibleWidth, k.visibleHeight);
    var i := k.yOffset * fw + k.xOffset + m;
    AsWrittenEntry(cells, size, k, m);
    FlatPositionOf(k.yOffset + row, col, size);
    assert k.xOffset == 0 && m == row * fw + col;
    RowsAdd(k.yOffset, row, fw);
  }

  lemma RowsAdd(a: nat, b: nat, w: nat)
    ensures (a + b) * w == a * w + b * w
  {
  }

  lemma AsWrittenEntry(cells: seq<seq<u16>>, size: int, k: Clip, m: nat)
    requires GlyphSize(size) && Block(cells, FontWidth(size), size) && 0 < k.visibleHeight
    requires k.xOffset + k.visibleWidth <= FontWidth(size) && k.yOffset + k.visibleHeight <= size
    requires m < k.visibleWidth * k.visibleHeight
    ensures k.yOffset * FontWidth(size) + k.xOffset + m < size * FontWidth(size)
    ensures AsWrittenData(cells, size, k)[m] == FlatCell(cells, size, k.yOffset * FontWidth(size) + k.xOffset + m)
  {
    AsWrittenReadsInside(size, k);
  }

  /** Cell `(row, col)` sits at position `row * width + col` of the
      row-major cell array. */
  lemma FlatPositionOf(row: nat, col: nat, size: int)
    requires GlyphSize(size) && row < size && col < FontWidth(size)
    ensures row * FontWidth(size) + col < size * FontWidth(size)
    ensures forall cells :: Block(cells, FontWidth(size), size) ==>
      FlatCell(cells, size, row * FontWidth(size) + col) == cells[row][col]
  {
    RowMajorSplits(row, col, size);
    RowsFitInBlock(row + 1, size, FontWidth(size));
  }

  /** Row-major positions in the cell array split back into row and
      column. */
  lemma RowMajorSplits(row: nat, col: nat, size: int)
    requires GlyphSize(size) && col < FontWidth(size)
    ensures (row * FontWidth(size) + col) / FontWidth(size) == row
    ensures (row * FontWidth(size) + col) % FontWidth(size) == col
  {
    if size == 12 {
      assert (row * 6 + col) / 6 == row;
    } else {
      assert (row * 8 + col) / 8 == row;
    }
  }

  /** The glyph whose only set bit is the second row of its first column. */
  const SHEAR_GLYPH: seq<u8> := [0x40, 0, 0, 0, 0, 0, 0, 0, 0, 0, 0, 0]

  /** A 12-pixel glyph two pixels past the left edge: as written, screen
      pixel `(0, 1)` shows cell `(1, 0)` of the glyph, which is set, where
      the glyph box puts cell `(1, 2)` there, which is clear. */
  lemma DrawCharAsWrittenShearsClippedGlyph(fb0: seq<u8>, asWritten: seq<u8>, intended: seq<u8>)
    requires |fb0| == FRAMEBUFFER_SIZE
    requires ClipGlyph(-2, 0, 12).Some?
    requires var k := ClipGlyph(-2, 0, 12).value;
      BoxCopied(fb0, asWritten, k.x0, k.y0, k.visibleWidth, k.visibleHeight,
                AsWrittenData(GlyphCells(SHEAR_GLYPH, 12), 12, k))
    requires CellsShown(fb0, intended, GlyphCells(SHEAR_GLYPH, 12), 6, 12, -2, 0, 12)
    ensures Pixel(asWritten, 0, 1) == POINT_COLOR
    ensures Pixel(intended, 0, 1) == BACK_COLOR
  {
    var k := ClipGlyph(-2, 0, 12).value;
    assert k == Clip(0, 0, 2, 0, 4, 12);
    var cells := GlyphCells(SHEAR_GLYPH, 12);
    assert Weight(6) == 64;
    assert cells[1][0] == GlyphCell(SHEAR_GLYPH, 12, 1, 0) == POINT_COLOR;
    assert cells[1][2] == GlyphCell(SHEAR_GLYPH, 12, 1, 2) == BACK_COLOR;
    assert RowMajor(1, 0, 4, 12) == 4;
    assert AsWrittenData(cells, 12, k)[4] == FlatCell(cells, 12, 6) == cells[1][0];
    assert InBox(-2, 0, 6, 12, 0, 1);
  }

  /** Cells of the glyph that `drawChar`'s bit loop has reached after
      byte `t` and bit `t1`. */
  predicate CellDone(row: nat, col: nat, t: nat, t1: nat)
  {
    2 * col + row / 8 < t || (2 * col + row / 8 == t && row % 8 < t1)
  }

  /** The bit loop of `drawChar`: an all-background `size` by width cell
      array with the glyph's set bits painted in. */
  method RenderGlyph(glyph: seq<u8>, size: u8) returns (write: array2<u16>)
    requires GlyphSize(size) && |glyph| == size
    ensures fresh(write)
    ensures write.Length0 == size && write.Length1 == FontWidth(size)
    ensures forall row, col :: 0 <= row < size && 0 <= col < FontWidth(size) ==>
      write[row, col] == GlyphCell(glyph, size, row, col)
  {
    var fw := FontWidth(size);
    write := new u16[size, fw]((_, _) => 0);
    var t := 0;
    while t < size
      invariant t <= size
      invariant forall row, col :: 0 <= row < size && 0 <= col < fw ==>
        write[row, col] == if CellDone(row, col, t, 0) then GlyphCell(glyph, size, row, col) else BACK_COLOR
    {
      var temp: u8 := glyph[t];
      var t1 := 0;
      while t1 < 8
        invariant t1 <= 8
        invariant temp == (glyph[t] * Weight(t1)) % 256
        invariant forall row, col :: 0 <= row < size && 0 <= col < fw ==>
          write[row, col] == if CellDone(row, col, t, t1) then GlyphCell(glyph, size, row, col) else BACK_COLOR
      {
        PaintBit(write, glyph, size, t, t1, temp);
        ShiftAgain(glyph[t], t1);
        temp := (temp * 2) % 256;
        t1 := t1 + 1;
      }
      t := t + 1;
    }
  }

  /** One round of the inner bit loop: the top bit of `temp` is bit
      `7 - t1` of glyph byte `t`, and it lands on column `t / 2`, row
      `t1 + (t % 2) * 8` when that cell is inside the glyph box. */
  method PaintBit(write: array2<u16>, glyph: seq<u8>, size: u8, t: nat, t1: nat, temp: u8)
    requires GlyphSize(size) && |glyph| == size && t < size && t1 < 8
    requires write.Length0 == size && write.Length1 == FontWidth(size)
    requires temp == (glyph[t] * Weight(t1)) % 256
    requires forall row, col :: 0 <= row < size && 0 <= col < FontWidth(size) ==>
      write[row, col] == if CellDone(row, col, t, t1) then GlyphCell(glyph, size, row, col) else BACK_COLOR
    modifies write
    ensures forall row, col :: 0 <= row < size && 0 <= col < FontWidth(size) ==>
      write[row, col] == if CellDone(row, col, t, t1 + 1) then GlyphCell(glyph, size, row, col) else BACK_COLOR
  {
    TopBitAfterShifts(glyph[t], t1);
    if temp >= 128 {
      var col := t / 2;
      var row := t1 + (t % 2) * 8;
      if row < size && col < FontWidth(size) {
        write[row, col] := POINT_COLOR;
      }
    }
    forall row, col | 0 <= row < size && 0 <= col < FontWidth(size)
      ensures write[row, col] == if CellDone(row, col, t, t1 + 1) then GlyphCell(glyph, size, row, col) else BACK_COLOR
    {
      CellDoneStep(row, col, t, t1);
    }
  }

  /** Bit `t1` of byte `t` completes exactly the cell at column `t / 2`,
      row `t1 + (t % 2) * 8`. */
  lemma CellDoneStep(row: nat, col: nat, t: nat, t1: nat)
    requires row < 16 && t1 < 8
    ensures CellDone(row, col, t, t1 + 1) <==>
      CellDone(row, col, t, t1) || (row == t1 + (t % 2) * 8 && col == t / 2)
    ensures row == t1 + (t % 2) * 8 && col == t / 2 ==> 2 * col + row / 8 == t && row % 8 == t1
  {
    if row == t1 + (t % 2) * 8 {
      DivModOf(row, 8, t % 2, t1);
    }
    if 2 * col + row / 8 == t {
      DivModOf(t, 2, col, row / 8);
    }
  }

  // ---------------------------------------------------------------------
  // Text

  /** The two bytes of a pixel are the low and high byte of its colour. */
  lemma PixelBytes(lo: u8, hi: u8, color: u16)
    requires lo + 256 * hi == color
    ensures lo == color % 256 && hi == color / 256
  {
  }

  /** The framebuffer `fb` with the `w` by `h` block `cells` drawn at
      `(x, y)`, clipped to the screen. */
  ghost function WithCells(fb: seq<u8>, cells: seq<seq<u16>>, w: nat, h: nat, x: int, y: int): (r: seq<u8>)
    requires |fb| == FRAMEBUFFER_SIZE && Block(cells, w, h)
    ensures |r| == FRAMEBUFFER_SIZE
  {
    seq(FRAMEBUFFER_SIZE, i requires 0 <= i < FRAMEBUFFER_SIZE =>
      var px, py := (i / 2) % WIDTH, (i / 2) / WIDTH;
      if InBox(x, y, w, h, px, py) then
        (if i % 2 == 0 then cells[py - y][px - x] % 256 else cells[py - y][px - x] / 256)
      else fb[i])
  }

  /** Reading a pixel back from `WithCells`. */
  lemma PixelOfWithCells(fb: seq<u8>, cells: seq<seq<u16>>, w: nat, h: nat, x: int, y: int, px: nat, py: nat)
    requires |fb| == FRAMEBUFFER_SIZE && Block(cells, w, h) && OnScreen(px, py)
    ensures Pixel(WithCells(fb, cells, w, h, x, y), px, py)
            == if InBox(x, y, w, h, px, py) then cells[py - y][px - x] else Pixel(fb, px, py)
  {
    var b := ByteIndex(px, py);
    var n := py * WIDTH + px;
    DivModOf(b, 2, n, 0);
    DivModOf(b + 1, 2, n, 1);
    DivModOf(n, WIDTH, py, px);
  }

  /** A framebuffer showing the whole block is `WithCells`. */
  lemma ShownIsWithCells(fb0: seq<u8>, fb: seq<u8>, cells: seq<seq<u16>>, w: nat, h: nat, x: int, y: int)
    requires CellsShown(fb0, fb, cells, w, h, x, y, h)
    ensures fb == WithCells(fb0, cells, w, h, x, y)
  {
    var r := WithCells(fb0, cells, w, h, x, y);
    forall i | 0 <= i < FRAMEBUFFER_SIZE
      ensures fb[i] == r[i]
    {
      EveryByteBelongsToAPixel(i);
      var px, py := (i / 2) % WIDTH, (i / 2) / WIDTH;
      var b := ByteIndex(px, py);
      assert Pixel(fb, px, py) == fb[b] as int + 256 * fb[b + 1] as int;
      if InBox(x, y, w, h, px, py) {
        PixelBytes(fb[b], fb[b + 1], cells[py - y][px - x]);
      } else {
        PixelBytes(fb[b], fb[b + 1], Pixel(fb0, px, py));
        PixelBytes(fb0[b], fb0[b + 1], Pixel(fb0, px, py));
      }
    }
  }

  /** The characters of a C string: those before its terminating NUL. */
  function CString(s: seq<u8>): (r: seq<u8>)
    requires 0 in s
    ensures |r| < |s| && r == s[..|r|] && s[|r|] == 0 && 0 !in r
  {
    if s[0] == 0 then [] else [s[0]] + CString(s[1..])
  }

  /** A string `drawString` can draw: its characters all have glyphs. */
  predicate Printable(s: seq<u8>)
  {
    forall i :: 0 <= i < |s| ==> Drawable(s[i])
  }

  /** `drawString` on the characters `s`: each glyph drawn in turn by the
      corrected `drawChar` (a glyph clipped at an edge is not sheared), the
      pen moving right by the glyph width in 16-bit arithmetic. */
  ghost function Text(fb: seq<u8>, fonts: Fonts, x: i16, y: i16, s: seq<u8>, size: int): (r: seq<u8>)
    requires |fb| == FRAMEBUFFER_SIZE && FontsWellFormed(fonts) && GlyphSize(size) && Printable(s)
    ensures |r| == FRAMEBUFFER_SIZE
    decreases |s|
  {
    if s == [] then fb
    else
      var cells := GlyphCells(Glyph(fonts, s[0], size), size);
      Text(WithCells(fb, cells, FontWidth(size), size, x, y), fonts, WrapI16(x + FontWidth(size)), y, s[1..], size)
  }

  /** Text drawn from `x` on leaves the pixels left of `x` alone, as long
      as the pen does not wrap. */
  lemma {:induction false} TextStartsAtPen(fb: seq<u8>, fonts: Fonts, x: i16, y: i16, s: seq<u8>, size: int, px: nat, py: nat)
    requires |fb| == FRAMEBUFFER_SIZE && FontsWellFormed(fonts) && GlyphSize(size) && Printable(s)
    requires x + |s| * FontWidth(size) < 0x8000
    requires OnScreen(px, py) && px < x
    ensures Pixel(Text(fb, fonts, x, y, s, size), px, py) == Pixel(fb, px, py)
    decreases |s|
  {
    if s != [] {
      var fw := FontWidth(size);
      var cells := GlyphCells(Glyph(fonts, s[0], size), size);
      var fb' := WithCells(fb, cells, fw, size, x, y);
      PixelOfWithCells(fb, cells, fw, size, x, y, px, py);
      PenSteps(|s|, fw);
      TextStartsAtPen(fb', fonts, x + fw, y, s[1..], size, px, py);
    }
  }

  /** `drawString` draws character `k` of the string `k` glyph widths
      right of the start: as long as the pen does not wrap, every on-screen
      pixel of that glyph's box shows the glyph. */
  lemma {:induction false} TextShowsEachCharacter(fb: seq<u8>, fonts: Fonts, x: i16, y: i16, s: seq<u8>, size: int,
                                                  k: nat, px: nat, py: nat)
    requires |fb| == FRAMEBUFFER_SIZE && FontsWellFormed(fonts) && GlyphSize(size) && Printable(s)
    requires x + |s| * FontWidth(size) < 0x8000
    requires k < |s| && OnScreen(px, py) && InBox(x + k * FontWidth(size), y, FontWidth(size), size, px, py)
    ensures Pixel(Text(fb, fonts, x, y, s, size), px, py)
            == GlyphCell(Glyph(fonts, s[k], size), size, py - y, px - x - k * FontWidth(size))
    decreases |s|, 1
  {
    if k == 0 {
      assert k * FontWidth(size) == 0;
      TextShowsFirstCharacter(fb, fonts, x, y, s, size, px, py);
    } else {
      TextShowsLaterCharacter(fb, fonts, x, y, s, size, k, px, py);
    }
  }

  /** Character `k > 0` is character `k - 1` of the rest of the string,
      drawn from the next pen position. */
  lemma {:induction false} TextShowsLaterCharacter(fb: seq<u8>, fonts: Fonts, x: i16, y: i16, s: seq<u8>, size: int,
                                                   k: nat, px: nat, py: nat)
    requires |fb| == FRAMEBUFFER_SIZE && FontsWellFormed(fonts) && GlyphSize(size) && Printable(s)
    requires x + |s| * FontWidth(size) < 0x8000
    requires 0 < k < |s| && OnScreen(px, py) && InBox(x + k * FontWidth(size), y, FontWidth(size), size, px, py)
    ensures Pixel(Text(fb, fonts, x, y, s, size), px, py)
            == GlyphCell(Glyph(fonts, s[k], size), size, py - y, px - x - k * FontWidth(size))
    decreases |s|, 0
  {
    var fw := FontWidth(size);
    var fb' := TextStep(fb, fonts, x, y, s, size);
    var g := Glyph(fonts, s[k], size);
    assert s[k] == s[1..][k - 1];
    assert g == Glyph(fonts, s[1..][k - 1], size);
    PenAdvance(x, px, k, fw);
    TextShowsEachCharacter(fb', fonts, x + fw, y, s[1..], size, k - 1, px, py);
  }

  /** The first glyph's box shows the first glyph: the later glyphs are
      all drawn right of it. */
  lemma TextShowsFirstCharacter(fb: seq<u8>, fonts: Fonts, x: i16, y: i16, s: seq<u8>, size: int, px: nat, py: nat)
    requires |fb| == FRAMEBUFFER_SIZE && FontsWellFormed(fonts) && GlyphSize(size) && Printable(s)
    requires x + |s| * FontWidth(size) < 0x8000
    requires s != [] && OnScreen(px, py) && InBox(x, y, FontWidth(size), size, px, py)
    ensures Pixel(Text(fb, fonts, x, y, s, size), px, py)
            == GlyphCell(Glyph(fonts, s[0], size), size, py - y, px - x)
  {
    GlyphPixel(fb, Glyph(fonts, s[0], size), size, x, y, px, py);
    var drawn := TextStep(fb, fonts, x, y, s, size);
    TextStartsAtPen(drawn, fonts, x + FontWidth(size), y, s[1..], size, px, py);
  }

  /** A pixel inside a drawn glyph's box shows that glyph's cell. */
  lemma GlyphPixel(fb: seq<u8>, g: seq<u8>, size: int, x: int, y: int, px: nat, py: nat)
    requires |fb| == FRAMEBUFFER_SIZE && GlyphSize(size) && |g| == size
    requires OnScreen(px, py) && InBox(x, y, FontWidth(size), size, px, py)
    ensures Pixel(WithCells(fb, GlyphCells(g, size), FontWidth(size), size, x, y), px, py)
            == GlyphCell(g, size, py - y, px - x)
  {
    GlyphCellsAt(g, size, py - y, px - x);
    PixelOfWithCells(fb, GlyphCells(g, size), FontWidth(size), size, x, y, px, py);
  }

  /** One glyph of `drawString` drawn, with the pen still in range. */
  lemma TextStep(fb: seq<u8>, fonts: Fonts, x: i16, y: i16, s: seq<u8>, size: int) returns (fb': seq<u8>)
    requires |fb| == FRAMEBUFFER_SIZE && FontsWellFormed(fonts) && GlyphSize(size) && Printable(s)
    requires s != [] && x + |s| * FontWidth(size) < 0x8000
    ensures fb' == WithCells(fb, GlyphCells(Glyph(fonts, s[0], size), size), FontWidth(size), size, x, y)
    ensures x + FontWidth(size) < 0x8000 && Printable(s[1..])
    ensures x + FontWidth(size) + |s[1..]| * FontWidth(size) < 0x8000
    ensures Text(fb, fonts, x, y, s, size) == Text(fb', fonts, x + FontWidth(size), y, s[1..], size)
  {
    var fw := FontWidth(size);
    fb' := WithCells(fb, GlyphCells(Glyph(fonts, s[0], size), size), fw, size, x, y);
    PenSteps(|s|, fw);
    assert WrapI16(x + fw) == x + fw;
  }

  /** Character `k` seen from the pen one glyph further on. */
  lemma PenAdvance(x: int, px: int, k: nat, fw: nat)
    requires k >= 1
    ensures px - x - k * fw == px - (x + fw) - (k - 1) * fw
    ensures x + k * fw == x + fw + (k - 1) * fw
  {
    PenSteps(k, fw);
  }

  /** One glyph width fewer. */
  lemma PenSteps(n: nat, fw: nat)
    requires n >= 1
    ensures (n - 1) * fw == n * fw - fw && n * fw >= fw
  {
  }

  // ---------------------------------------------------------------------
  // Lines

  function Abs(a: int): (r: nat)
    ensures r == a || r == -a
  {
    if a < 0 then -a else a
  }

  predicate Between(a: int, b: int, c: int)
  {
    (a <= b <= c) || (c <= b <= a)
  }

  /** Direction of the pen along one axis, as `drawLine` computes it. */
  function Direction(from: int, to: int): int
  {
    if from < to then 1 else -1
  }

  /** A pixel of the line from `(x1, y1)` towards `(x2, y2)`: inside the
      bounding box, not the end point, and close to the ideal segment —
      the cross product of its offset with the segment's direction, which
      is the segment's length times the pixel's distance from it, is at
      most `dx + dy`. */
  ghost predicate NearSegment(p: (int, int), x1: int, y1: int, x2: int, y2: int)
  {
    var dx, dy := Abs(x2 - x1), Abs(y2 - y1);
    var kx, ky := Abs(p.0 - x1), Abs(p.1 - y1);
    && Between(x1, p.0, x2) && Between(y1, p.1, y2)
    && p != (x2, y2)
    && -(dx + dy) <= dy * kx - dx * ky <= dx + dy
  }

  /** One move of the pen towards `(x2, y2)`: one pixel along x, along y,
      or along both. */
  predicate PenMove(p: (int, int), q: (int, int), x1: int, y1: int, x2: int, y2: int)
  {
    && (q.0 == p.0 || q.0 == p.0 + Direction(x1, x2))
    && (q.1 == p.1 || q.1 == p.1 + Direction(y1, y2))
    && p != q
  }

  /** The pixels `drawLine` sets, in order: none when the end points
      coincide; otherwise a chain of pen moves from `(x1, y1)` that stops
      one move short of `(x2, y2)`, every pixel of it near the segment. */
  ghost predicate LinePath(path: seq<(int, int)>, x1: int, y1: int, x2: int, y2: int)
  {
    && (path == [] <==> (x1, y1) == (x2, y2))
    && PathSoFar(path, (x2, y2), x1, y1, x2, y2)
  }

  /** The pixels set so far, with the pen now at `pen`. */
  ghost predicate PathSoFar(path: seq<(int, int)>, pen: (int, int), x1: int, y1: int, x2: int, y2: int)
  {
    && (path == [] ==> pen == (x1, y1))
    && (path != [] ==> path[0] == (x1, y1) && PenMove(path[|path| - 1], pen, x1, y1, x2, y2))
    && (forall i :: 0 <= i < |path| ==> NearSegment(path[i], x1, y1, x2, y2))
    && (forall i :: 0 <= i < |path| - 1 ==> PenMove(path[i], path[i + 1], x1, y1, x2, y2))
  }

  lemma ExtendPath(path: seq<(int, int)>, pen: (int, int), next: (int, int), x1: int, y1: int, x2: int, y2: int)
    requires PathSoFar(path, pen, x1, y1, x2, y2)
    requires NearSegment(pen, x1, y1, x2, y2) && PenMove(pen, next, x1, y1, x2, y2)
    ensures PathSoFar(path + [pen], next, x1, y1, x2, y2)
  {
  }

  /** Setting the pen's pixel adds it to the painted path. */
  lemma PaintPathStep(fb0: seq<u8>, before: seq<u8>, path: seq<(int, int)>, pen: (int, int), color: u16)
    requires PathPainted(fb0, before, path, color)
    ensures PathPainted(fb0, SetPixelSpec(before, pen.0, pen.1, color), path + [pen], color)
  {
    SetPixelPaintsOnePixel(before, pen.0, pen.1, color);
  }

  /** The on-screen pixels of `path` have `color`; every other pixel keeps
      its colour. */
  ghost predicate PathPainted(fb0: seq<u8>, fb: seq<u8>, path: seq<(int, int)>, color: u16)
  {
    && |fb0| == FRAMEBUFFER_SIZE && |fb| == FRAMEBUFFER_SIZE
    && forall px: nat, py: nat {:trigger Pixel(fb, px, py)} :: OnScreen(px, py) ==>
         Pixel(fb, px, py) == if (px, py) in path then color else Pixel(fb0, px, py)
  }

  /** The pen's distance from the start grows with every move. */
  lemma {:induction false} LinePathMovesAway(path: seq<(int, int)>, x1: int, y1: int, x2: int, y2: int, i: nat, j: nat)
    requires LinePath(path, x1, y1, x2, y2) && i < j < |path|
    ensures Abs(path[i].0 - x1) + Abs(path[i].1 - y1) < Abs(path[j].0 - x1) + Abs(path[j].1 - y1)
    decreases j - i
  {
    assert NearSegment(path[j - 1], x1, y1, x2, y2) && NearSegment(path[j], x1, y1, x2, y2);
    assert PenMove(path[j - 1], path[j], x1, y1, x2, y2);
    if i < j - 1 {
      LinePathMovesAway(path, x1, y1, x2, y2, i, j - 1);
    }
  }

  /** No pixel of a line is set twice. */
  lemma LinePathIsSimple(path: seq<(int, int)>, x1: int, y1: int, x2: int, y2: int)
    requires LinePath(path, x1, y1, x2, y2)
    ensures forall i, j :: 0 <= i < j < |path| ==> path[i] != path[j]
  {
    forall i, j | 0 <= i < j < |path|
      ensures path[i] != path[j]
    {
      LinePathMovesAway(path, x1, y1, x2, y2, i, j);
    }
  }

  /** The pen never passes the end point: a move from the last column
      (or row) of the line would leave its bounding box. */
  lemma NoOvershoot(dx: nat, dy: nat, kx: nat, ky: nat)
    requires kx <= dx && ky <= dy && (kx, ky) != (dx, dy)
    ensures kx == dx ==> dy * kx - dx * ky >= dx
    ensures ky == dy ==> dy * kx - dx * ky + dy <= 0
  {
    if kx == dx {
      assert dy * kx - dx * ky == dx * (dy - ky);
      ProductsGrow(dx, 1, dx, dy - ky);
    }
    if ky == dy {
      assert dy * kx - dx * ky == -(dy * (dx - kx));
      ProductsGrow(dy, 1, dy, dx - kx);
    }
  }

  /** The loop invariant of `drawLine` on the pen's offset `(kx, ky)`
      from the start: within the bounding box, with `err` tracking the
      scaled cross product within bounds. */
  predicate PenInvariant(dx: nat, dy: nat, kx: nat, ky: nat, err: int)
  {
    && kx <= dx && ky <= dy
    && err == dx - dy - (dy * kx - dx * ky)
    && -2 * dy <= err <= 2 * dx
  }

  /** One round of `drawLine` short of the end point moves the pen, keeps
      the invariant, and leaves the pixel it set near the segment. */
  lemma BresenhamStep(dx: nat, dy: nat, kx: nat, ky: nat, err: int)
    requires PenInvariant(dx, dy, kx, ky, err) && (kx, ky) != (dx, dy)
    ensures -(dx + dy) <= dy * kx - dx * ky <= dx + dy
    ensures 2 * err + dy > 0 || 2 * err < dx
    ensures 2 * err + dy > 0 ==> kx < dx
    ensures 2 * err < dx ==> ky < dy
    ensures PenInvariant(dx, dy, if 2 * err + dy > 0 then kx + 1 else kx, if 2 * err < dx then ky + 1 else ky,
                         err - (if 2 * err + dy > 0 then dy else 0) + (if 2 * err < dx then dx else 0))
  {
    NoOvershoot(dx, dy, kx, ky);
    var kx' := if 2 * err + dy > 0 then kx + 1 else kx;
    var ky' := if 2 * err < dx then ky + 1 else ky;
    assert dy * kx' == dy * kx + (if 2 * err + dy > 0 then dy else 0);
    assert dx * ky' == dx * ky + (if 2 * err < dx then dx else 0);
  }

  /** The pen after `kx` moves along x and `ky` along y from `(x1, y1)`. */
  function PenAt(x1: int, y1: int, x2: int, y2: int, kx: nat, ky: nat): (int, int)
  {
    (if x1 < x2 then x1 + kx else x1 - kx, if y1 < y2 then y1 + ky else y1 - ky)
  }

  /** One round of `drawLine`, on the line itself: the pixel it sets is
      near the segment and the pen makes one move. */
  lemma LineRound(x1: int, y1: int, x2: int, y2: int, kx: nat, ky: nat, err: int)
    requires PenInvariant(Abs(x2 - x1), Abs(y2 - y1), kx, ky, err)
    requires PenAt(x1, y1, x2, y2, kx, ky) != (x2, y2)
    ensures NearSegment(PenAt(x1, y1, x2, y2, kx, ky), x1, y1, x2, y2)
    ensures var step := 2 * err + Abs(y2 - y1) > 0;
            var rise := 2 * err < Abs(x2 - x1);
            PenMove(PenAt(x1, y1, x2, y2, kx, ky),
                    PenAt(x1, y1, x2, y2, if step then kx + 1 else kx, if rise then ky + 1 else ky),
                    x1, y1, x2, y2)
  {
    var dx, dy := Abs(x2 - x1), Abs(y2 - y1);
    assert (kx, ky) != (dx, dy);
    BresenhamStep(dx, dy, kx, ky, err);
  }

  /** The state of `drawLine` after `kx` moves along x and `ky` along y:
      the pixels set so far form `path`, and only they are painted. */
  ghost predicate Drawing(x1: int, y1: int, x2: int, y2: int, kx: nat, ky: nat, err: int,
                          path: seq<(int, int)>, fb0: seq<u8>, fb: seq<u8>, color: u16)
  {
    && PenInvariant(Abs(x2 - x1), Abs(y2 - y1), kx, ky, err)
    && (path == [] <==> kx == 0 && ky == 0)
    && PathSoFar(path, PenAt(x1, y1, x2, y2, kx, ky), x1, y1, x2, y2)
    && PathPainted(fb0, fb, path, color)
  }

  /** The pen stays inside the bounding box of the line, and for a line
      between byte coordinates `err`, `e2 = 2 * err` and both updates of
      `err` stay within `int16_t`. */
  lemma PenInBox(x1: u8, y1: u8, x2: u8, y2: u8, kx: nat, ky: nat, err: int)
    requires PenInvariant(Abs(x2 - x1), Abs(y2 - y1), kx, ky, err)
    ensures Between(x1, PenAt(x1, y1, x2, y2, kx, ky).0, x2)
    ensures Between(y1, PenAt(x1, y1, x2, y2, kx, ky).1, y2)
    ensures -0x8000 <= 2 * err < 0x8000
    ensures -0x8000 <= err - Abs(y2 - y1) && err + Abs(x2 - x1) < 0x8000
  {
  }

  /** One round of `drawLine` short of the end point: it sets the pen's
      pixel, moves the pen along x when `2 * err + dy > 0` and along y when
      `2 * err < dx` (at least one of them), and keeps `Drawing`. */
  lemma DrawingRound(x1: int, y1: int, x2: int, y2: int, kx: nat, ky: nat, err: int,
                     kx': nat, ky': nat, err': int,
                     path: seq<(int, int)>, fb0: seq<u8>, fb: seq<u8>, color: u16)
    requires Drawing(x1, y1, x2, y2, kx, ky, err, path, fb0, fb, color)
    requires PenAt(x1, y1, x2, y2, kx, ky) != (x2, y2)
    requires kx' == if 2 * err + Abs(y2 - y1) > 0 then kx + 1 else kx
    requires ky' == if 2 * err < Abs(x2 - x1) then ky + 1 else ky
    requires err' == err - (if kx' > kx then Abs(y2 - y1) else 0) + (if ky' > ky then Abs(x2 - x1) else 0)
    ensures kx' > kx || ky' > ky
    ensures var pen := PenAt(x1, y1, x2, y2, kx, ky);
            Drawing(x1, y1, x2, y2, kx', ky', err', path + [pen], fb0, SetPixelSpec(fb, pen.0, pen.1, color), color)
  {
    var dx, dy := Abs(x2 - x1), Abs(y2 - y1);
    var pen := PenAt(x1, y1, x2, y2, kx, ky);
    LineRound(x1, y1, x2, y2, kx, ky, err);
    BresenhamStep(dx, dy, kx, ky, err);
    ExtendPath(path, pen, PenAt(x1, y1, x2, y2, kx', ky'), x1, y1, x2, y2);
    PaintPathStep(fb0, fb, path, pen, color);
  }

  /** When the pen reaches the end point, the path drawn is the line. */
  lemma DrawingDone(x1: int, y1: int, x2: int, y2: int, kx: nat, ky: nat, err: int,
                    path: seq<(int, int)>, fb0: seq<u8>, fb: seq<u8>, color: u16)
    requires Drawing(x1, y1, x2, y2, kx, ky, err, path, fb0, fb, color)
    requires PenAt(x1, y1, x2, y2, kx, ky) == (x2, y2)
    ensures LinePath(path, x1, y1, x2, y2) && PathPainted(fb0, fb, path, color)
  {
  }

  /** `readID`: the three identification bytes the panel returns for
      RDID1, RDID2 and RDID3, packed into one word with RDID1 highest.
      The register reads themselves are bus traffic; their results are
      the parameters. */
  function PackId(id1: u8, id2: u8, id3: u8): (id: u32)
    ensures id < 0x100_0000
    ensures id / 0x1_0000 == id1 && (id / 0x100) % 0x100 == id2 && id % 0x100 == id3
  {
    var id := id1 * 0x1_0000 + id2 * 0x100 + id3;
    DivModOf(id, 0x1_0000, id1, id2 * 0x100 + id3);
    DivModOf(id, 0x100, id1 * 0x100 + id2, id3);
    DivModOf(id1 * 0x100 + id2, 0x100, id1, id2);
    id
  }

  /** The framebuffer, `LCD::framebuffer`. */
  class Display {
    const framebuffer: array<u8>

    constructor ()
      ensures framebuffer.Length == FRAMEBUFFER_SIZE && fresh(framebuffer)
      ensures forall x: nat, y: nat {:trigger Pixel(framebuffer[..], x, y)} ::
        OnScreen(x, y) ==> Pixel(framebuffer[..], x, y) == BACK_COLOR
    {
      framebuffer := new u8[FRAMEBUFFER_SIZE](_ => 0);
    }

    /** `setPixel`. */
    method SetPixel(x: u8, y: u8, color: u16)
      requires framebuffer.Length == FRAMEBUFFER_SIZE
      modifies framebuffer
      ensures framebuffer[..] == SetPixelSpec(old(framebuffer[..]), x, y, color)
    {
      if x >= WIDTH || y >= HEIGHT {
        return;
      }
      var index := (y * WIDTH + x) * 2;
      framebuffer[index] := color % 256;
      framebuffer[index + 1] := color / 256;
    }

    /** `drawHLine`: a run of `length` pixels to the right of `(x, y)`,
        drawn only if it ends inside the right edge. */
    method DrawHLine(x: u8, y: u8, length: u8, color: u16)
      requires framebuffer.Length == FRAMEBUFFER_SIZE
      modifies framebuffer
      ensures x + length > WIDTH ==> framebuffer[..] == old(framebuffer[..])
      ensures x + length <= WIDTH ==> RectPainted(old(framebuffer[..]), framebuffer[..], x, y, length, 1, color)
    {
      if x + length > WIDTH {
        return;
      }
      var i := 0;
      while i < length
        invariant i <= length
        invariant RectPainted(old(framebuffer[..]), framebuffer[..], x, y, i, 1, color)
      {
        ghost var before := framebuffer[..];
        SetPixel(x + i, y, color);
        SetPixelPaintsOnePixel(before, x + i, y, color);
        i := i + 1;
      }
    }

    /** `drawVLine`: a run of `length` pixels below `(x, y)`, drawn only if
        it ends inside the bottom edge. */
    method DrawVLine(x: u8, y: u8, length: u8, color: u16)
      requires framebuffer.Length == FRAMEBUFFER_SIZE
      modifies framebuffer
      ensures y + length > HEIGHT ==> framebuffer[..] == old(framebuffer[..])
      ensures y + length <= HEIGHT ==> RectPainted(old(framebuffer[..]), framebuffer[..], x, y, 1, length, color)
    {
      if y + length > HEIGHT {
        return;
      }
      var i := 0;
      while i < length
        invariant i <= length
        invariant RectPainted(old(framebuffer[..]), framebuffer[..], x, y, 1, i, color)
      {
        ghost var before := framebuffer[..];
        SetPixel(x, y + i, color);
        SetPixelPaintsOnePixel(before, x, y + i, color);
        i := i + 1;
      }
    }

    /** `fillRect`: a `width` by `height` rectangle, drawn only if it ends
        inside the right and bottom edges. */
    method FillRect(x: u8, y: u8, width: u8, height: u8, color: u16)
      requires framebuffer.Length == FRAMEBUFFER_SIZE
      modifies framebuffer
      ensures x + width > WIDTH || y + height > HEIGHT ==> framebuffer[..] == old(framebuffer[..])
      ensures x + width <= WIDTH && y + height <= HEIGHT ==>
        RectPainted(old(framebuffer[..]), framebuffer[..], x, y, width, height, color)
    {
      if x + width > WIDTH || y + height > HEIGHT {
        return;
      }
      ghost var fb0 := framebuffer[..];
      var row := 0;
      while row < height
        invariant row <= height
        invariant RowsPainted(fb0, framebuffer[..], x, y, width, row, 0, color)
      {
        var col := 0;
        while col < width
          invariant col <= width
          invariant RowsPainted(fb0, framebuffer[..], x, y, width, row, col, color)
        {
          ghost var before := framebuffer[..];
          SetPixel(x + col, y + row, color);
          NextColumn(fb0, before, x, y, width, row, col, color);
          col := col + 1;
        }
        NextRow(fb0, framebuffer[..], x, y, width, row, color);
        row := row + 1;
      }
    }

    /** `fillRGBRect`: copy a block of RGB565 pixels, `width` per row, to
        the box at `(x, y)`. An origin off the screen or an empty box draws
        nothing; otherwise the box is clipped at the right and bottom edges
        and the clipped width is also the stride in `data`. */
    method FillRGBRect(x: u8, y: u8, data: seq<u16>, width: u8, height: u8)
      requires framebuffer.Length == FRAMEBUFFER_SIZE
      requires x < WIDTH && y < HEIGHT ==>
        |data| >= ClipExtent(x, width, WIDTH) * ClipExtent(y, height, HEIGHT)
      modifies framebuffer
      ensures x >= WIDTH || y >= HEIGHT || width == 0 || height == 0 ==>
        framebuffer[..] == old(framebuffer[..])
      ensures x < WIDTH && y < HEIGHT && width > 0 && height > 0 ==>
        BoxCopied(old(framebuffer[..]), framebuffer[..], x, y,
                  ClipExtent(x, width, WIDTH), ClipExtent(y, height, HEIGHT), data)
    {
      if x >= WIDTH || y >= HEIGHT || width == 0 || height == 0 {
        return;
      }
      var w := width;
      var h := height;
      if x + w > WIDTH {
        w := WIDTH - x;
      }
      if y + h > HEIGHT {
        h := HEIGHT - y;
      }
      ghost var fb0 := framebuffer[..];
      var row := 0;
      while row < h
        invariant row <= h
        invariant row < h ==> RowsCopied(fb0, framebuffer[..], x, y, w, h, data, row, 0)
        invariant row == h ==> BoxCopied(fb0, framebuffer[..], x, y, w, h, data)
      {
        var col := 0;
        while col < w
          invariant col <= w
          invariant RowsCopied(fb0, framebuffer[..], x, y, w, h, data, row, col)
        {
          ghost var before := framebuffer[..];
          var pixel := data[RowMajor(row, col, w, h)];
          var index := ((y + row) * WIDTH + (x + col)) * 2;
          if index + 1 < FRAMEBUFFER_SIZE {
            framebuffer[index] := pixel % 256;
            framebuffer[index + 1] := pixel / 256;
          }
          assert framebuffer[..] == SetPixelSpec(before, x + col, y + row, pixel);
          CopyOnePixel(fb0, before, x, y, w, h, data, row, col);
          col := col + 1;
        }
        CopyNextRow(fb0, framebuffer[..], x, y, w, h, data, row);
        row := row + 1;
      }
    }

    /** `drawChar`, with each visible row of the glyph copied on its own
        so that the cells drawn are the visible ones (see Findings). The
        whole glyph box, clipped to the screen, shows the glyph of `c`;
        nothing else changes. */
    method DrawChar(fonts: Fonts, x: i16, y: i16, c: u8, size: u8)
      requires framebuffer.Length == FRAMEBUFFER_SIZE
      requires FontsWellFormed(fonts) && Drawable(c) && GlyphSize(size)
      modifies framebuffer
      ensures CellsShown(old(framebuffer[..]), framebuffer[..], GlyphCells(Glyph(fonts, c, size), size),
                         FontWidth(size), size, x, y, size)
    {
      var glyph := Glyph(fonts, c, size);
      var clip := ClipGlyph(x, y, size);
      if clip.None? {
        return;
      }
      var k := clip.value;
      var write := RenderGlyph(glyph, size);
      FillClippedGlyph(write, GlyphCells(glyph, size), size, x, y, k);
    }

    /** The visible part `k` of the rendered glyph `write`, sent to
        `fillRGBRect` one glyph row at a time. */
    method FillClippedGlyph(write: array2<u16>, ghost cells: seq<seq<u16>>, size: u8, x: i16, y: i16, k: Clip)
      requires framebuffer.Length == FRAMEBUFFER_SIZE
      requires GlyphSize(size) && ClipFits(x, y, size, k) && Block(cells, FontWidth(size), size)
      requires write.Length0 == size && write.Length1 == FontWidth(size)
      requires forall row, col :: 0 <= row < size && 0 <= col < FontWidth(size) ==>
        write[row, col] == cells[row][col]
      modifies framebuffer
      ensures CellsShown(old(framebuffer[..]), framebuffer[..], cells, FontWidth(size), size, x, y, size)
    {
      ghost var fb0 := framebuffer[..];
      RowsOffScreen(fb0, fb0, cells, size, x, y, k);
      var r := 0;
      while r < k.visibleHeight
        invariant r <= k.visibleHeight
        invariant CellsShown(fb0, framebuffer[..], cells, FontWidth(size), size, x, y, k.yOffset + r)
        invariant forall row, col :: 0 <= row < size && 0 <= col < FontWidth(size) ==>
          write[row, col] == cells[row][col]
      {
        var data := seq(k.visibleWidth, j requires 0 <= j < k.visibleWidth reads write =>
                          write[k.yOffset + r, k.xOffset + j]);
        ghost var before := framebuffer[..];
        assert ClipExtent(k.x0, k.visibleWidth, WIDTH) * ClipExtent(k.y0 + r, 1, HEIGHT) == k.visibleWidth * 1;
        FillRGBRect(k.x0, k.y0 + r, data, k.visibleWidth, 1);
        ShowNextRow(fb0, before, framebuffer[..], cells, size, x, y, k, r, data);
        r := r + 1;
      }
      RowsOffScreen(fb0, framebuffer[..], cells, size, x, y, k);
    }

    /** `drawChar` as written: the visible part of the glyph goes to
        `fillRGBRect` in one call, from cell `(yOffset, xOffset)` on, with
        the visible width as the stride. */
    method DrawCharAsWritten(fonts: Fonts, x: i16, y: i16, c: u8, size: u8)
      requires framebuffer.Length == FRAMEBUFFER_SIZE
      requires FontsWellFormed(fonts) && Drawable(c) && GlyphSize(size)
      modifies framebuffer
      ensures ClipGlyph(x, y, size).None? ==> framebuffer[..] == old(framebuffer[..])
      ensures ClipGlyph(x, y, size).Some? ==>
        var k := ClipGlyph(x, y, size).value;
        BoxCopied(old(framebuffer[..]), framebuffer[..], k.x0, k.y0, k.visibleWidth, k.visibleHeight,
                  AsWrittenData(GlyphCells(Glyph(fonts, c, size), size), size, k))
    {
      var glyph := Glyph(fonts, c, size);
      var clip := ClipGlyph(x, y, size);
      if clip.None? {
        return;
      }
      var k := clip.value;
      var write := RenderGlyph(glyph, size);
      FillAsWritten(write, GlyphCells(glyph, size), size, k);
    }

    /** The single `fillRGBRect` call of `drawChar` as written: it reads
        the rendered glyph as one flat array from cell `(yOffset,
        xOffset)` on. */
    method FillAsWritten(write: array2<u16>, ghost cells: seq<seq<u16>>, size: u8, k: Clip)
      requires framebuffer.Length == FRAMEBUFFER_SIZE
      requires GlyphSize(size) && Block(cells, FontWidth(size), size)
      requires 0 < k.visibleWidth && 0 < k.visibleHeight
      requires k.x0 + k.visibleWidth <= WIDTH && k.y0 + k.visibleHeight <= HEIGHT
      requires k.xOffset + k.visibleWidth <= FontWidth(size) && k.yOffset + k.visibleHeight <= size
      requires write.Length0 == size && write.Length1 == FontWidth(size)
      requires forall row, col :: 0 <= row < size && 0 <= col < FontWidth(size) ==>
        write[row, col] == cells[row][col]
      modifies framebuffer
      ensures BoxCopied(old(framebuffer[..]), framebuffer[..], k.x0, k.y0, k.visibleWidth, k.visibleHeight,
                        AsWrittenData(cells, size, k))
    {
      var fw := FontWidth(size);
      var base := k.yOffset * fw + k.xOffset;
      AsWrittenReadsInside(size, k);
      var n := k.visibleWidth * k.visibleHeight;
      var data := seq(n, i requires 0 <= i < n && base + i < size * fw reads write =>
                        write[FlatRow(base + i, size), (base + i) % fw]);
      ghost var expected := AsWrittenData(cells, size, k);
      forall i | 0 <= i < n
        ensures data[i] == expected[i]
      {
        var j := base + i;
        var row, col := FlatRow(j, size), j % fw;
        assert data[i] == write[row, col] == cells[row][col];
        assert expected[i] == FlatCell(cells, size, j) == cells[row][col];
      }
      assert data == expected;
      assert ClipExtent(k.x0, k.visibleWidth, WIDTH) == k.visibleWidth;
      assert ClipExtent(k.y0, k.visibleHeight, HEIGHT) == k.visibleHeight;
      FillRGBRect(k.x0, k.y0, data, k.visibleWidth, k.visibleHeight);
    }

    /** `drawString`: the characters up to the terminating NUL, one glyph
        after another, each through the corrected `DrawChar`. */
    method DrawString(fonts: Fonts, x: i16, y: i16, size: u8, str: seq<u8>)
      requires framebuffer.Length == FRAMEBUFFER_SIZE
      requires FontsWellFormed(fonts) && GlyphSize(size) && 0 in str && Printable(CString(str))
      modifies framebuffer
      ensures framebuffer[..] == Text(old(framebuffer[..]), fonts, x, y, CString(str), size)
    {
      ghost var text := CString(str);
      var pen: i16 := x;
      var i := 0;
      while str[i] != 0
        invariant 0 <= i <= |text|
        invariant Text(framebuffer[..], fonts, pen, y, text[i..], size) == Text(old(framebuffer[..]), fonts, x, y, text, size)
        decreases |text| - i
      {
        assert str[i] == text[i];
        ghost var before := framebuffer[..];
        DrawChar(fonts, pen, y, str[i], size);
        ShownIsWithCells(before, framebuffer[..], GlyphCells(Glyph(fonts, str[i], size), size), FontWidth(size), size, pen, y);
        assert text[i..][1..] == text[i + 1..];
        pen := WrapI16(pen + FontWidth(size));
        i := i + 1;
      }
      assert text[i..] == [];
    }

    /** `drawLine`, Bresenham's algorithm: `err` is `dx - dy` less the
        scaled cross product of the pen's offset with the segment, and each
        round sets the pen's pixel and moves the pen along x, y or both.
        The source keeps `dx`, `dy`, `sx`, `sy`, `err` and `e2` in
        `int16_t`; `PenInBox` shows none of them leaves that range. */
    method DrawLine(x1: u8, y1: u8, x2: u8, y2: u8, color: u16) returns (ghost path: seq<(int, int)>)
      requires framebuffer.Length == FRAMEBUFFER_SIZE
      modifies framebuffer
      ensures LinePath(path, x1, y1, x2, y2)
      ensures PathPainted(old(framebuffer[..]), framebuffer[..], path, color)
    {
      var dx: int := Abs(x2 - x1);
      var dy: int := Abs(y2 - y1);
      var sx: int := if x1 < x2 then 1 else -1;
      var sy: int := if y1 < y2 then 1 else -1;
      var err: int := dx - dy;
      var cx: int, cy: int := x1, y1;
      ghost var kx: nat, ky: nat := 0, 0;
      ghost var fb0 := framebuffer[..];
      path := [];
      while cx != x2 || cy != y2
        invariant Drawing(x1, y1, x2, y2, kx, ky, err, path, fb0, framebuffer[..], color)
        invariant cx == PenAt(x1, y1, x2, y2, kx, ky).0 && cy == PenAt(x1, y1, x2, y2, kx, ky).1
        decreases (dx - kx) + (dy - ky)
      {
        ghost var kx0, ky0, err0, before := kx, ky, err, framebuffer[..];
        PenInBox(x1, y1, x2, y2, kx, ky, err);
        SetPixel(cx, cy, color);
        var e2: int := 2 * err;
        if e2 > -dy {
          err := err - dy;
          cx := cx + sx;
          kx := kx + 1;
        }
        if e2 < dx {
          err := err + dx;
          cy := cy + sy;
          ky := ky + 1;
        }
        DrawingRound(x1, y1, x2, y2, kx0, ky0, err0, kx, ky, err, path, fb0, before, color);
        path := path + [PenAt(x1, y1, x2, y2, kx0, ky0)];
      }
      DrawingDone(x1, y1, x2, y2, kx, ky, err, path, fb0, framebuffer[..], color);
    }
  }
}
