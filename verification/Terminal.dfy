/**
 The framebuffer terminal of kernel/video/fbcon.c and the character loop of
 kernel/video/renderer.c. The globals are the fields; `cells` is the grid that
 the pixel array shows.
 */
module Terminal {
  import opened CTypes
  import opened Numerals
  import opened Sgr
  import opened Ansi
  import opened Screen
  import opened Pixels

  /** The first k pixels of the cell (x, y), row by row, show `cell`; all others are as before. */
  ghost predicate Painted(now: seq<uint32>, before: seq<uint32>, font: Font, cell: Cell, width: nat, x: nat, y: nat, k: nat)
    requires width > 0
  {
    && |now| == |before|
    && forall p :: 0 <= p < |now| ==>
         now[p] == if InCell(p, width, x, y) && Order(p, width, x, y) < k
                   then CellPixel(font, cell, RowOf(p, width) - 16 * y, ColOf(p, width) - 8 * x) else before[p]
  }

  /** The place of pixel p in its cell, row by row. */
  ghost function Order(p: nat, width: nat, x: nat, y: nat): int
    requires width > 0
  {
    (RowOf(p, width) - 16 * y) * 7 + (ColOf(p, width) - 8 * x)
  }

  /** The pixel at row i and column c of the cell (x, y). */
  ghost function PixelOf(width: nat, x: nat, y: nat, i: nat, c: nat): int {
    (16 * y + i) * width + (8 * x + c)
  }

  lemma PaintStep(now: seq<uint32>, before: seq<uint32>, font: Font, cell: Cell, width: nat, x: nat, y: nat, i: nat, c: nat)
    requires width > 0 && i < 16 && c < 7 && 8 * x + 7 <= width
    requires Painted(now, before, font, cell, width, x, y, 7 * i + c)
    requires 0 <= PixelOf(width, x, y, i, c) < |now|
    ensures Painted(now[PixelOf(width, x, y, i, c) := CellPixel(font, cell, i, c)],
                    before, font, cell, width, x, y, 7 * i + c + 1)
  {
    hide CellPixel, RowOf, ColOf;
    Position(width, 16 * y + i, 8 * x + c);
    forall p | 0 <= p < |now| && p != PixelOf(width, x, y, i, c)
      ensures !(RowOf(p, width) == 16 * y + i && ColOf(p, width) == 8 * x + c)
    {
      PositionIs(p, width);
    }
  }

  /** A cell's pixels lie in the framebuffer. */
  lemma PixelInBounds(width: nat, height: nat, x: nat, y: nat, i: nat, c: nat)
    requires x < width / 8 && y < height / 16 && i < 16 && c < 7
    ensures 0 <= PixelOf(width, x, y, i, c) < width * height
  {
    Position(width, 16 * y + i, 8 * x + c);
    CellInBounds(width, height, x, y, PixelOf(width, x, y, i, c));
  }

  /** The code's 32-bit index arithmetic finds that pixel. */
  lemma PixelIndex(width: nat, height: nat, x: nat, y: nat, i: nat, c: nat)
    requires x < width / 8 && y < height / 16 && i < 16 && c < 7 && width * height <= TWO32
    ensures 0 <= PixelOf(width, x, y, i, c) < width * height
    ensures ((16 * y * width + 8 * x) % 0x1_0000_0000 + c + i * width) % 0x1_0000_0000 == PixelOf(width, x, y, i, c)
  {
    PixelInBounds(width, height, x, y, i, c);
    var q, first := PixelOf(width, x, y, i, c), 16 * y * width + 8 * x;
    assert q == first + (c + i * width) by { Distribute(16 * y, i, width); }
    ModAdd(first, c + i * width, TWO32);
    ModUnique(q, TWO32, 0, q);
  }

  lemma Distribute(a: int, b: int, c: int)
    ensures (a + b) * c == a * c + b * c
  {
  }

  /** A saturating increase of every byte of the colour, and a fixed shade for yellow. */
  method Brighten(color: uint32) returns (bright: uint32)
    ensures bright == Brightened(color)
  {
    if color == COLOR_YELLOW {
      return 0xFFFF55;
    }
    var bytes := new byte[4](k requires 0 <= k < 4 => PixelByte(color, k));
    var k := 0;
    while k != 4
      invariant 0 <= k <= 4
      invariant forall m :: 0 <= m < 4 ==>
                  bytes[m] == if m < k then Saturate(PixelByte(color, m)) else PixelByte(color, m)
      decreases 4 - k
    {
      var originalByte: int := bytes[k];
      bytes[k] := (originalByte + 0x55) % 0x100;
      if bytes[k] < originalByte {
        bytes[k] := 0xFF;
      }
      k := k + 1;
    }
    bright := Join(bytes[0], bytes[1], bytes[2], bytes[3]);
  }

  class Console {
    const parser: EscapeParser
    var esc: bool
    var cursorX: uint16
    var cursorY: uint16
    const ttyWidth: uint16
    const ttyHeight: uint16
    const fbWidth: uint32
    const fbHeight: uint32
    const ptr: array<uint32>
    const font: Font

    ghost var cells: map<(int, int), Cell>
    ghost const initial: seq<uint32>

    ghost predicate Valid()
      reads this, ptr, parser, parser.escapeSequence
    {
      && parser.Valid() && (!esc ==> parser.escapeSequenceLength == 0)
      && Shape()
      && cursorX < ttyWidth
      && Shown()
    }

    /** The framebuffer's size, in pixels and in cells. */
    ghost predicate Shape() {
      && ttyWidth == fbWidth / 8 % 0x1_0000 && ttyHeight == fbHeight / 16 % 0x1_0000 && ttyWidth > 0
      && ptr.Length == |initial| == fbWidth * fbHeight <= TWO32
    }

    /** The pixel array is the rendering of the grid. */
    ghost predicate Shown()
      reads this, ptr
    {
      fbWidth > 0 && ptr.Length <= |initial|
      && forall p :: 0 <= p < ptr.Length ==> ptr[p] == PixelAt(font, cells, initial, fbWidth, p)
    }

    ghost function Abs(): State
      requires parser.Valid()
      reads this, parser, parser.escapeSequence
    {
      State(esc, parser.State(), parser.escapeSequenceLength, cursorX, cursorY, parser.Attributes(), cells)
    }

    /** FBCON_Init: the size in cells, the cursor at the origin, nothing drawn yet. */
    constructor (parser: EscapeParser, ptr: array<uint32>, width: uint32, height: uint32, font: Font)
      requires parser.Valid() && parser.escapeSequenceLength == 0
      requires ptr.Length == width * height <= TWO32 && width / 8 % 0x1_0000 > 0
      modifies parser`color, parser`bold
      ensures Valid() && this.parser == parser && this.ptr == ptr && this.fbWidth == width && this.fbHeight == height
      ensures initial == ptr[..] && this.font == font
      ensures ttyWidth == width / 8 % 0x1_0000 && ttyHeight == height / 16 % 0x1_0000
      ensures Abs() == State(false, Seek, 0, 0, 0, Attr(COLOR_LGRAY, parser.bgColor, false), map[])
    {
      this.parser, this.ptr, this.font := parser, ptr, font;
      fbWidth, fbHeight := width, height;
      ttyWidth := width / 8 % 0x1_0000;
      ttyHeight := height / 16 % 0x1_0000;
      cursorX, cursorY, esc := 0, 0, false;
      cells, initial := map[], ptr[..];
      new;
      parser.color := COLOR_LGRAY;
      parser.bold := false;
      assert parser.escapeSequence[..0] == "";
      EmptyBuffer();
    }

    /** The framebuffer shows every drawn cell from pixel row 16 y and column 8 x on. */
    lemma ShowsCell(x: nat, y: nat, i: nat, c: nat)
      requires Valid() && (x, y) in cells && x < ttyWidth && y < ttyHeight && i < 16 && c < 7
      ensures 0 <= (16 * y + i) * fbWidth + (8 * x + c) < ptr.Length
      ensures ptr[(16 * y + i) * fbWidth + (8 * x + c)] == CellPixel(font, cells[(x, y)], i, c)
    {
      hide PixelAt, CellPixel, Pending;
      PixelInBounds(fbWidth, fbHeight, x, y, i, c);
      CellPlace(font, cells, initial, fbWidth, x, y, i, c);
    }

    /** The colour of one pixel of a glyph: bit j of its row picks foreground or background. */
    method PixelColor(glyph: byte, i: nat, j: nat, color: uint32, bg: uint32) returns (pixel: uint32)
      requires i < 16 && 0 < j <= 7
      ensures pixel == CellPixel(font, Cell(glyph, color, bg, parser.bold), i, 7 - j)
    {
      pixel := bg;
      if font(glyph, i) & ((1 as bv8) << j) != 0 {
        pixel := color;
        if parser.bold {
          pixel := Brighten(color);
        }
      }
    }

    /** One pixel of a glyph: row i, bit j. */
    method DrawPixel(ch: char, offset: uint32, i: nat, j: nat, color: uint32, bg: uint32,
                     ghost before: seq<uint32>, ghost x: uint16, ghost y: uint16)
      requires Shape() && x < ttyWidth && y < ttyHeight && i < 16 && 0 < j <= 7
      requires offset == (16 * y * fbWidth + 8 * x) % 0x1_0000_0000
      requires Painted(ptr[..], before, font, Cell(Glyph(ch), color, bg, parser.bold), fbWidth, x, y, 7 * i + (7 - j))
      modifies ptr
      ensures Painted(ptr[..], before, font, Cell(Glyph(ch), color, bg, parser.bold), fbWidth, x, y, 7 * i + (7 - j) + 1)
    {
      hide CellPixel, Painted, PixelOf;
      var pixel := PixelColor(Glyph(ch), i, j, color, bg);
      PixelIndex(fbWidth, fbHeight, x, y, i, 7 - j);
      PaintStep(ptr[..], before, font, Cell(Glyph(ch), color, bg, parser.bold), fbWidth, x, y, i, 7 - j);
      ghost var now := ptr[..];
      var q := (offset + (7 - j) + i * fbWidth) % 0x1_0000_0000;
      ptr[q] := pixel;
      assert ptr[..] == now[q := pixel];
    }

    /** Paints the glyph of ch into the 16 rows and 7 columns of the cell (x, y). */
    method DrawGlyph(ch: char, x: uint16, y: uint16, color: uint32, bg: uint32)
      requires Shape() && x < ttyWidth && y < ttyHeight
      modifies ptr
      ensures Painted(ptr[..], old(ptr[..]), font, Cell(Glyph(ch), color, bg, parser.bold), fbWidth, x, y, 112)
    {
      hide Painted;
      ghost var before, cell := ptr[..], Cell(Glyph(ch), color, bg, parser.bold);
      NothingPainted(before, font, cell, fbWidth, x, y);
      var offset := (16 * y * fbWidth + 8 * x) % 0x1_0000_0000;
      var i := 0;
      while i != 16
        invariant 0 <= i <= 16
        invariant Painted(ptr[..], before, font, cell, fbWidth, x, y, 7 * i)
        decreases 16 - i
      {
        var j := 7;
        while j != 0
          invariant 0 <= j <= 7
          invariant Painted(ptr[..], before, font, cell, fbWidth, x, y, 7 * i + (7 - j))
        {
          DrawPixel(ch, offset, i, j, color, bg, before, x, y);
          j := j - 1;
        }
        i := i + 1;
      }
    }

    /** A visible character: its glyph, then the cursor one column further. */
    method Draw(ch: char, x: uint16, y: uint16, color: uint32, bg: uint32)
      requires Valid() && x < ttyWidth && y < ttyHeight
      modifies this, ptr
      ensures Valid() && Abs() == Screen.Draw(old(Abs()), ttyWidth, ch, x, y, color, bg)
      ensures esc == old(esc)
    {
      hide PixelAt, Painted, Pending;
      ghost var cell := Cell(Glyph(ch), color, bg, parser.bold);
      ghost var before, grid := ptr[..], cells;
      DrawGlyph(ch, x, y, color, bg);
      ShownAfterDraw(ptr[..], before, font, grid, initial, fbWidth, x, y, cell);
      cells := cells[(x, y) := cell];
      assert forall p :: 0 <= p < ptr.Length ==> ptr[p] == ptr[..][p];
      StepOn();
    }

    /** A character within an escape sequence goes to the parser. */
    method Escape(ch: char)
      requires Valid() && esc && parser.escapeSequenceLength < 255
      modifies this`esc, parser, parser.escapeSequence
      ensures Valid() && Abs() == Screen.Escape(old(Abs()), ch)
    {
      hide PixelAt, Pending, Feed, Apply;
      var done := parser.HandleEsc(ch);
      esc := !done;
    }

    lemma CursorInLine()
      requires Valid()
      ensures parser.Valid() && cursorX < ttyWidth
    {
      hide PixelAt, Pending;
    }

    /** `TTY_CursorX--`, away from the first column. */
    method StepBack()
      requires Valid() && cursorX > 0
      modifies this`cursorX
      ensures Valid() && Abs() == old(Abs()).(x := old(cursorX) - 1)
    {
      hide PixelAt, Pending;
      cursorX := (cursorX + 0xFFFF) % 0x1_0000;
    }

    /** The cursor behind a drawn character. */
    method StepOn()
      requires Valid()
      modifies this`cursorX, this`cursorY
      ensures Valid() && Abs() == Advance(old(Abs()), ttyWidth)
    {
      hide PixelAt, Pending;
      cursorX := (cursorX + 1) % 0x1_0000;
      if cursorX >= ttyWidth {
        cursorX := 0;
        cursorY := (cursorY + 1) % 0x1_0000;
      }
    }

    /** A backspace goes back one column, unless in the first, and writes a space there. */
    method Erase(x: uint16, y: uint16, color: uint32, bg: uint32)
      requires Valid() && !esc && Fits(Abs(), ttyWidth, ttyHeight, BACKSPACE, x, y)
      modifies this, ptr, parser, parser.escapeSequence
      ensures Valid() && Abs() == Screen.Write(old(Abs()), ttyWidth, BACKSPACE, x, y, color, bg)
      decreases 1, 0
    {
      hide PixelAt, Pending, Feed, Apply, Valid, EscapeParser.Valid;
      CursorInLine();
      if cursorX == 0 {
        return;
      }
      StepBack();
      Putchar(' ');
      StepBack();
    }

    /** FBCON_Write. */
    method Write(ch: char, x: uint16, y: uint16, color: uint32, bg: uint32)
      requires Valid() && Fits(Abs(), ttyWidth, ttyHeight, ch, x, y)
      modifies this, ptr, parser, parser.escapeSequence
      ensures Valid() && Abs() == Screen.Write(old(Abs()), ttyWidth, ch, x, y, color, bg)
      decreases if ch == BACKSPACE then 2 else 0, 0
    {
      hide PixelAt, Pending, Feed, Apply, Screen.Escape, Screen.Draw;
      if ch == ESC {
        esc := true;
        return;
      }
      if esc {
        Escape(ch);
        return;
      }
      if ch == '\r' {
        cursorX := 0;
        return;
      }
      if ch == BACKSPACE {
        Erase(x, y, color, bg);
        return;
      }
      if ch == '\n' {
        cursorX := 0;
        cursorY := (cursorY + 1) % 0x1_0000;
        return;
      }
      Draw(ch, x, y, color, bg);
    }

    /** putchar: TTY_Write with the globals. */
    method Putchar(ch: char)
      requires Valid() && Fits(Abs(), ttyWidth, ttyHeight, ch, cursorX, cursorY)
      modifies this, ptr, parser, parser.escapeSequence
      ensures Valid() && Abs() == Screen.Putchar(old(Abs()), ttyWidth, ch)
      decreases if ch == BACKSPACE then 2 else 0, 1
    {
      Write(ch, cursorX, cursorY, parser.color, parser.bgColor);
    }

    /** puts: every character of the string, and their number. */
    method Puts(s: CString) returns (n: nat)
      requires Valid() && RunFits(Abs(), ttyWidth, ttyHeight, s)
      modifies this, ptr, parser, parser.escapeSequence
      ensures Valid() && Abs() == Run(old(Abs()), ttyWidth, s) && n == |s|
    {
      hide PixelAt, Pending, Screen.Putchar, Fits;
      n := 0;
      assert s[0..] == s;
      while n < |s|
        invariant 0 <= n <= |s| && Valid()
        invariant RunFits(Abs(), ttyWidth, ttyHeight, s[n..])
        invariant Run(Abs(), ttyWidth, s[n..]) == Run(old(Abs()), ttyWidth, s)
      {
        assert s[n..][1..] == s[n + 1..];
        Putchar(s[n]);
        n := n + 1;
      }
    }
  }

  lemma ShownAfterDraw(now: seq<uint32>, before: seq<uint32>, font: Font, cells: map<(int, int), Cell>,
                       initial: seq<uint32>, width: nat, x: nat, y: nat, cell: Cell)
    requires width > 0 && |before| <= |initial|
    requires Painted(now, before, font, cell, width, x, y, 112)
    requires forall p :: 0 <= p < |before| ==> before[p] == PixelAt(font, cells, initial, width, p)
    ensures |now| == |before|
    ensures forall p :: 0 <= p < |now| ==> now[p] == PixelAt(font, cells[(x, y) := cell], initial, width, p)
  {
    hide PixelAt, CellPixel, RowOf, ColOf;
    forall p | 0 <= p < |now|
      ensures now[p] == PixelAt(font, cells[(x, y) := cell], initial, width, p)
    {
      PixelAfterDraw(font, cells, initial, width, p, x, y, cell);
    }
  }

  lemma NothingPainted(before: seq<uint32>, font: Font, cell: Cell, width: nat, x: nat, y: nat)
    requires width > 0
    ensures Painted(before, before, font, cell, width, x, y, 0)
  {
    hide CellPixel;
  }
}
