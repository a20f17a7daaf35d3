/** Where the cells of the text screen lie in the framebuffer, and what is painted there. */
module Pixels {
  import opened CTypes
  import opened Numerals
  import opened Sgr
  import opened Screen

  /** The 256 glyphs of 16 rows each, one byte a row. */
  type Font = (byte, nat) -> bv8

  // ----------------------------------------------------------------- colours

  /** Byte k of a little-endian 32-bit pixel. */
  function PixelByte(color: uint32, k: nat): (b: byte)
    requires k < 4
  {
    if k == 0 then color % 0x100
    else if k == 1 then color / 0x100 % 0x100
    else if k == 2 then color / 0x1_0000 % 0x100
    else color / 0x100_0000
  }

  function Join(b0: byte, b1: byte, b2: byte, b3: byte): (color: uint32) {
    b0 + 0x100 * b1 + 0x1_0000 * b2 + 0x100_0000 * b3
  }

  function Saturate(b: byte): (r: byte) {
    Min(b + 0x55, 0xFF)
  }

  /** The shade used for bold text. */
  function Brightened(color: uint32): uint32 {
    if color == COLOR_YELLOW then 0xFFFF55
    else Join(Saturate(PixelByte(color, 0)), Saturate(PixelByte(color, 1)),
              Saturate(PixelByte(color, 2)), Saturate(PixelByte(color, 3)))
  }

  lemma JoinBytes(b0: byte, b1: byte, b2: byte, b3: byte)
    ensures var c := Join(b0, b1, b2, b3);
            PixelByte(c, 0) == b0 && PixelByte(c, 1) == b1 && PixelByte(c, 2) == b2 && PixelByte(c, 3) == b3
  {
    var c := Join(b0, b1, b2, b3);
    var high := b2 + 0x100 * b3;
    ModUnique(c, 0x100, b1 + 0x100 * high, b0);
    ModUnique(b1 + 0x100 * high, 0x100, high, b1);
    ModUnique(c, 0x1_0000, high, b0 + 0x100 * b1);
    ModUnique(high, 0x100, b3, b2);
    ModUnique(c, 0x100_0000, b3, b0 + 0x100 * b1 + 0x1_0000 * b2);
  }

  /** The bytes of a colour, least significant first. */
  lemma ColourBytes(color: uint32)
    ensures color == PixelByte(color, 0) + 0x100 * PixelByte(color, 1) + 0x1_0000 * PixelByte(color, 2)
                     + 0x100_0000 * PixelByte(color, 3)
  {
    var q1: int := color / 0x100;
    var q2, r0, r1 := q1 / 0x100, color % 0x100, q1 % 0x100;
    var q3, r2 := q2 / 0x100, q2 % 0x100;
    ModUnique(color, 0x1_0000, q2, 0x100 * r1 + r0);
    ModUnique(color, 0x100_0000, q3, 0x1_0000 * r2 + 0x100 * r1 + r0);
  }

  /** Bold yellow has a shade of its own. */
  lemma BoldYellow()
    ensures Brightened(0xFFAA_5500) == 0xFF_FF55
  {
  }

  /** Bold is a saturating addition of 0x55 to every byte, except for yellow. */
  lemma BrightenedBytes(color: uint32, k: nat)
    requires k < 4 && color != COLOR_YELLOW
    ensures PixelByte(Brightened(color), k) == Min(PixelByte(color, k) + 0x55, 0xFF)
  {
    JoinBytes(Saturate(PixelByte(color, 0)), Saturate(PixelByte(color, 1)),
              Saturate(PixelByte(color, 2)), Saturate(PixelByte(color, 3)));
  }

  /** The pixel of a cell at the given glyph row and column; bit 7 is the leftmost. */
  function CellPixel(font: Font, cell: Cell, row: nat, col: nat): uint32
    requires row < 16 && col < 7
  {
    if font(cell.glyph, row) & ((1 as bv8) << (7 - col)) != 0
    then if cell.bold then Brightened(cell.color) else cell.color
    else cell.bg
  }

  /** The pixel of column c shows bit 7 - c of the row. */
  lemma ColumnBit(font: Font, cell: Cell, row: nat, c: nat)
    requires row < 16 && c < 7
    ensures var lit := if cell.bold then Brightened(cell.color) else cell.color;
            CellPixel(font, cell, row, c) == if font(cell.glyph, row) & ((0x80 as bv8) >> c) != 0 then lit else cell.bg
  {
    hide Brightened;
    MaskShift(c);
  }

  lemma MaskShift(c: nat)
    requires c < 7
    ensures (1 as bv8) << (7 - c) == (0x80 as bv8) >> c
  {
    if c == 0 {
    } else if c == 1 {
    } else if c == 2 {
    } else if c == 3 {
    } else if c == 4 {
    } else if c == 5 {
    } else {
    }
  }

  /** The bit of the given mask, if the pixel is lit. */
  function MaskIf(lit: bool, mask: bv8): bv8 {
    if lit then mask else 0
  }

  lemma RowBits(b: bv8)
    ensures MaskIf(b & 0x80 != 0, 0x80) | MaskIf(b & 0x40 != 0, 0x40) | MaskIf(b & 0x20 != 0, 0x20) | MaskIf(b & 0x10 != 0, 0x10)
            | MaskIf(b & 0x08 != 0, 0x08) | MaskIf(b & 0x04 != 0, 0x04) | MaskIf(b & 0x02 != 0, 0x02)
         == b & 0xFE
  {
  }

  /**
   A row of a cell shows its byte of the font from left to right, all but the
   last bit, in the cell's colour or its bold shade; the rest is background.
   */
  lemma RowShowsFont(font: Font, cell: Cell, row: nat)
    requires row < 16
    requires cell.bg != if cell.bold then Brightened(cell.color) else cell.color
    ensures var lit := if cell.bold then Brightened(cell.color) else cell.color;
            && (forall c :: 0 <= c < 7 ==> CellPixel(font, cell, row, c) == lit || CellPixel(font, cell, row, c) == cell.bg)
            && MaskIf(CellPixel(font, cell, row, 0) == lit, 0x80) | MaskIf(CellPixel(font, cell, row, 1) == lit, 0x40)
               | MaskIf(CellPixel(font, cell, row, 2) == lit, 0x20) | MaskIf(CellPixel(font, cell, row, 3) == lit, 0x10)
               | MaskIf(CellPixel(font, cell, row, 4) == lit, 0x08) | MaskIf(CellPixel(font, cell, row, 5) == lit, 0x04)
               | MaskIf(CellPixel(font, cell, row, 6) == lit, 0x02)
            == font(cell.glyph, row) & 0xFE
  {
    hide CellPixel, Brightened, MaskIf;
    forall c | 0 <= c < 7
      ensures var lit := if cell.bold then Brightened(cell.color) else cell.color;
              CellPixel(font, cell, row, c) == lit || CellPixel(font, cell, row, c) == cell.bg
    {
      ColumnBit(font, cell, row, c);
    }
    ColumnBit(font, cell, row, 0);
    ColumnBit(font, cell, row, 1);
    ColumnBit(font, cell, row, 2);
    ColumnBit(font, cell, row, 3);
    ColumnBit(font, cell, row, 4);
    ColumnBit(font, cell, row, 5);
    ColumnBit(font, cell, row, 6);
    RowBits(font(cell.glyph, row));
  }

  // --------------------------------------------------------------- positions

  function RowOf(p: nat, width: nat): nat
    requires width > 0
  {
    p / width
  }

  function ColOf(p: nat, width: nat): nat
    requires width > 0
  {
    p % width
  }

  /** Pixel p belongs to the 16 rows and 7 columns of the cell (x, y). */
  predicate InCell(p: nat, width: nat, x: nat, y: nat)
    requires width > 0
  {
    16 * y <= RowOf(p, width) < 16 * y + 16 && 8 * x <= ColOf(p, width) < 8 * x + 7
  }

  lemma Position(width: nat, row: nat, col: nat)
    requires col < width
    ensures row * width + col >= 0
    ensures RowOf(row * width + col, width) == row && ColOf(row * width + col, width) == col
  {
    ModUnique(row * width + col, width, row, col);
  }

  lemma PositionIs(p: nat, width: nat)
    requires width > 0
    ensures p == RowOf(p, width) * width + ColOf(p, width) && ColOf(p, width) < width
  {
  }

  /** A cell of the text screen lies within the framebuffer, for every width and height. */
  lemma CellInBounds(width: nat, height: nat, x: nat, y: nat, p: nat)
    requires width > 0 && x < width / 8 && y < height / 16 && InCell(p, width, x, y)
    ensures p < width * height
  {
    PositionIs(p, width);
    MulMono(width, RowOf(p, width) + 1, height);
  }

  /** No row but those of the screen will do: any other cell has a pixel outside the framebuffer. */
  lemma CellInBoundsExactly(width: nat, height: nat, x: nat, y: nat)
    requires x < width / 8
    ensures (forall p: nat :: InCell(p, width, x, y) ==> p < width * height) <==> y < height / 16
  {
    if y < height / 16 {
      forall p: nat | InCell(p, width, x, y)
        ensures p < width * height
      {
        CellInBounds(width, height, x, y, p);
      }
    } else {
      Position(width, 16 * y + 15, 8 * x);
      MulMono(width, height, 16 * y + 15);
      assert InCell((16 * y + 15) * width + 8 * x, width, x, y);
    }
  }

  /** Different cells have no pixel in common. */
  lemma CellsDisjoint(width: nat, p: nat, x1: nat, y1: nat, x2: nat, y2: nat)
    requires width > 0 && InCell(p, width, x1, y1) && InCell(p, width, x2, y2)
    ensures x1 == x2 && y1 == y2
  {
  }

  /** The framebuffer shows the grid: cells that were drawn, and elsewhere what was there before. */
  function PixelAt(font: Font, cells: map<(int, int), Cell>, initial: seq<uint32>, width: nat, p: nat): uint32
    requires width > 0 && p < |initial|
  {
    var row, col := RowOf(p, width), ColOf(p, width);
    if (col / 8, row / 16) in cells && col % 8 < 7 then CellPixel(font, cells[(col / 8, row / 16)], row % 16, col % 8)
    else initial[p]
  }

  /**
   The cell (x, y) is shown from pixel row 16 y and column 8 x on, a glyph row
   to a pixel row. Its eighth column, and cells that were not drawn, show what
   was there before.
   */
  lemma CellPlace(font: Font, cells: map<(int, int), Cell>, initial: seq<uint32>, width: nat, x: nat, y: nat, i: nat, c: nat)
    requires i < 16 && c < 8 && 8 * x + c < width && 0 <= (16 * y + i) * width + (8 * x + c) < |initial|
    ensures PixelAt(font, cells, initial, width, (16 * y + i) * width + (8 * x + c))
            == if (x, y) in cells && c < 7 then CellPixel(font, cells[(x, y)], i, c)
               else initial[(16 * y + i) * width + (8 * x + c)]
  {
    hide CellPixel, RowOf, ColOf;
    Position(width, 16 * y + i, 8 * x + c);
    ModUnique(8 * x + c, 8, x, c);
    ModUnique(16 * y + i, 16, y, i);
  }

  /** The whole framebuffer that shows the grid. */
  function Rendering(font: Font, cells: map<(int, int), Cell>, initial: seq<uint32>, width: nat): (r: seq<uint32>)
    requires width > 0
  {
    seq(|initial|, p requires 0 <= p < |initial| => PixelAt(font, cells, initial, width, p))
  }

  /** Drawing one more cell changes exactly the pixels of that cell. */
  lemma PixelAfterDraw(font: Font, cells: map<(int, int), Cell>, initial: seq<uint32>, width: nat, p: nat,
                       x: nat, y: nat, cell: Cell)
    requires width > 0 && p < |initial|
    ensures PixelAt(font, cells[(x, y) := cell], initial, width, p)
            == if InCell(p, width, x, y) then CellPixel(font, cell, RowOf(p, width) - 16 * y, ColOf(p, width) - 8 * x)
               else PixelAt(font, cells, initial, width, p)
  {
  }
}
