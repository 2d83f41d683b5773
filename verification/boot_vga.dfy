/** The bootloader's VGA text writer (bootloader/src/vga.rs): like the
    kernel console but without tab, backspace or the ASCII filter, and with
    an eager wrap, so the cursor column always stays on the screen. */
module BootVga {
  import opened TextGrid

  /** The sixteen VGA colours, `Black` = 0 to `White` = 15. */
  type Color = c: bv8 | c < 16

  const BLACK: Color := 0
  const WHITE: Color := 15

  datatype Writer = Writer(col: nat, row: nat, color: bv8, cells: Cells)

  /** `VgaWriter::new`: the cursor at the top left, white on black; the
      screen is whatever it held. */
  function New(screen: Cells): (w: Writer)
    ensures w.col == 0 && w.row == 0 && w.color == 0x0F && w.cells == screen
  {
    Writer(0, 0, SetColorByte(WHITE, BLACK), screen)
  }

  predicate Ok(w: Writer)
  {
    |w.cells| == CELLS && w.row < HEIGHT && w.col < WIDTH
  }

  /** `set_color`'s attribute byte `fg | bg << 4`. */
  function SetColorByte(fg: Color, bg: Color): bv8
  {
    fg | (bg << 4)
  }

  /** The attribute byte holds the foreground in its low nibble and the
      background in its high one, so each colour pair has its own byte. */
  lemma ColorByteParts(fg: Color, bg: Color)
    ensures SetColorByte(fg, bg) & 0x0F == fg && SetColorByte(fg, bg) >> 4 == bg
  {
  }

  lemma ColorByteInjective(fg: Color, bg: Color, fg': Color, bg': Color)
    requires SetColorByte(fg, bg) == SetColorByte(fg', bg')
    ensures fg == fg' && bg == bg'
  {
    ColorByteParts(fg, bg);
    ColorByteParts(fg', bg');
  }

  function SetColor(w: Writer, fg: Color, bg: Color): Writer
  {
    w.(color := SetColorByte(fg, bg))
  }

  /** `clear`. */
  function Clear(w: Writer): (r: Writer)
    ensures Ok(r) && r.col == 0 && r.row == 0 && r.color == w.color
    ensures forall i :: 0 <= i < CELLS ==> r.cells[i] == Blank(w.color)
  {
    w.(cells := Cleared(w.color), col := 0, row := 0)
  }

  /** `write_char`: newline and carriage return move the cursor; any other
      byte is stored at the cursor when that is on the screen, and the
      cursor moves right. Then a full row wraps and a full screen scrolls. */
  function WriteChar(w: Writer, c: bv8): (r: Writer)
    requires |w.cells| == CELLS
    ensures |r.cells| == CELLS
  {
    var m :=
      if c == 0x0A then w.(col := 0, row := w.row + 1)
      else if c == 0x0D then w.(col := 0)
      else
        var idx := Index(w.row, w.col);
        var cells := if idx < CELLS then w.cells[idx := Cell(w.color, c)] else w.cells;
        w.(cells := cells, col := w.col + 1);
    var n := if m.col >= WIDTH then m.(col := 0, row := m.row + 1) else m;
    if n.row >= HEIGHT then n.(cells := Scrolled(n.cells, n.color), row := HEIGHT - 1) else n
  }

  /** `write_string`. */
  function WriteString(w: Writer, s: seq<bv8>): (r: Writer)
    requires |w.cells| == CELLS
    ensures |r.cells| == CELLS
    decreases |s|
  {
    if s == [] then w else WriteString(WriteChar(w, s[0]), s[1..])
  }

  /** After every character the cursor is on the screen. */
  lemma WriteCharOk(w: Writer, c: bv8)
    requires |w.cells| == CELLS && w.row < HEIGHT
    ensures Ok(WriteChar(w, c))
  {
  }

  lemma {:induction false} WriteStringOk(w: Writer, s: seq<bv8>)
    requires Ok(w)
    ensures Ok(WriteString(w, s))
    decreases |s|
  {
    if s != [] {
      WriteCharOk(w, s[0]);
      WriteStringOk(WriteChar(w, s[0]), s[1..]);
    }
  }

  /** A cell is written only when the cursor's index is inside the screen,
      which it always is on a good writer; a character for a cursor below
      the screen is dropped, and the screen scrolls. */
  lemma WritesOnlyOnScreen(w: Writer, c: bv8)
    requires |w.cells| == CELLS && c != 0x0A && c != 0x0D
    ensures Ok(w) ==> Index(w.row, w.col) < CELLS
    ensures w.row >= HEIGHT && w.col + 1 < WIDTH ==>
      (WriteChar(w, c).cells == Scrolled(w.cells, w.color) && WriteChar(w, c).row == HEIGHT - 1)
  {
  }

  /** On a good writer, a drawn character lands at the cursor, and the
      cursor moves right, or to the next row at the end of a row. */
  lemma DrawsAtCursor(w: Writer, c: bv8)
    requires Ok(w) && c != 0x0A && c != 0x0D
    ensures var r := WriteChar(w, c);
      var drawn := w.cells[Index(w.row, w.col) := Cell(w.color, c)];
      && (w.col + 1 < WIDTH ==> r.col == w.col + 1 && r.row == w.row && r.cells == drawn)
      && (w.col + 1 == WIDTH && w.row + 1 < HEIGHT ==> r.col == 0 && r.row == w.row + 1 && r.cells == drawn)
      && (w.col + 1 == WIDTH && w.row + 1 == HEIGHT ==>
            (r.col == 0 && r.row == HEIGHT - 1 && r.cells == Scrolled(drawn, w.color)))
  {
  }

  /** Newline goes to the start of the next row (scrolling at the bottom);
      carriage return to the start of the row. */
  lemma LineControls(w: Writer)
    requires Ok(w)
    ensures var n := WriteChar(w, 0x0A);
      && n.col == 0
      && (w.row + 1 < HEIGHT ==> n.row == w.row + 1 && n.cells == w.cells)
      && (w.row + 1 == HEIGHT ==> n.row == HEIGHT - 1 && n.cells == Scrolled(w.cells, w.color))
    ensures WriteChar(w, 0x0D) == w.(col := 0)
  {
  }
}
