/**
 The abstract terminal: a grid of character cells, a cursor, the current
 attributes and the escape automaton. It has no pixels and no buffer.
 */
module Screen {
  import opened CTypes
  import opened Sgr

  datatype Cell = Cell(glyph: byte, color: uint32, bg: uint32, bold: bool)

  /** `pending` counts the buffered characters of an unfinished escape sequence. */
  datatype State = State(esc: bool, scan: Scan, pending: nat, x: uint16, y: uint16, attr: Attr,
                         cells: map<(int, int), Cell>)

  const ESC: char := '\U{001B}'
  const BACKSPACE: char := '\U{0008}'

  predicate IsControl(ch: char) {
    ch == ESC || ch == '\r' || ch == BACKSPACE || ch == '\n'
  }

  /** The cursor one column further, on the next row behind the last column. */
  function Advance(t: State, width: nat): State {
    var x := (t.x + 1) % 0x1_0000;
    if x >= width then t.(x := 0, y := (t.y + 1) % 0x1_0000) else t.(x := x)
  }

  function Glyph(ch: char): byte {
    ch as int % 0x100
  }

  function Draw(t: State, width: nat, ch: char, x: uint16, y: uint16, color: uint32, bg: uint32): State {
    Advance(t.(cells := t.cells[(x, y) := Cell(Glyph(ch), color, bg, t.attr.bold)]), width)
  }

  function Escape(t: State, ch: char): State {
    match Feed(t.scan, ch)
    case More(s) => t.(scan := s, pending := t.pending + 1)
    case Done(code) => t.(esc := false, scan := Seek, pending := 0, attr := Apply(code, t.attr))
  }

  /** FBCON_Write: one character at cell (x, y) in the given colours. */
  function Write(t: State, width: nat, ch: char, x: uint16, y: uint16, color: uint32, bg: uint32): State {
    if ch == ESC then t.(esc := true)
    else if t.esc then Escape(t, ch)
    else if ch == '\r' then t.(x := 0)
    else if ch == BACKSPACE then
      if t.x == 0 then t else
      var drawn := Draw(t.(x := t.x - 1), width, ' ', t.x - 1, t.y, t.attr.color, t.attr.bg);
      drawn.(x := (drawn.x + 0xFFFF) % 0x1_0000)
    else if ch == '\n' then t.(x := 0, y := (t.y + 1) % 0x1_0000)
    else Draw(t, width, ch, x, y, color, bg)
  }

  /** putchar: one character at the cursor in the current colours. */
  function Putchar(t: State, width: nat, ch: char): State {
    Write(t, width, ch, t.x, t.y, t.attr.color, t.attr.bg)
  }

  /** The characters of s, one after the other. */
  function Run(t: State, width: nat, s: string): State
    decreases |s|
  {
    if s == "" then t else Run(Putchar(t, width, s[0]), width, s[1..])
  }

  /** Writing ch at (x, y) stays within the rows of the screen and within the sequence buffer. */
  predicate Fits(t: State, width: nat, height: nat, ch: char, x: uint16, y: uint16) {
    if ch == ESC then true
    else if t.esc then t.pending < 255
    else if ch == BACKSPACE then t.x == 0 || (t.x <= width && t.y < height)
    else IsControl(ch) || (x < width && y < height)
  }

  predicate RunFits(t: State, width: nat, height: nat, s: string)
    decreases |s|
  {
    s != "" ==> Fits(t, width, height, s[0], t.x, t.y) && RunFits(Putchar(t, width, s[0]), width, height, s[1..])
  }
}
