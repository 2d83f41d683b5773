/** The kernel's VGA text console (kernel/src/drivers/console.rs): a
    cursor and colour over the 80x25 cell grid. The copy of every byte to
    the serial port is not modelled here. */
module Console {
  import opened Common
  import opened TextGrid

  datatype Console = Console(col: nat, row: nat, color: bv8, cells: Cells)

  /** `Console::new` followed by `init`'s `clear`: white on black. */
  const INITIAL: Console := Console(0, 0, 0x0F, Cleared(0x0F))

  /** What the console keeps true: the grid is whole, the cursor row is on
      the screen and the cursor column is at most one past the last
      column (a printable byte there wraps first). */
  predicate Ok(c: Console)
  {
    |c.cells| == CELLS && c.row < HEIGHT && c.col <= WIDTH
  }

  /** `scroll`. */
  function ScrollUp(c: Console): (r: Console)
    requires |c.cells| == CELLS
    ensures |r.cells| == CELLS && ScrolledFrom(r.cells, c.cells, c.color)
    ensures r.row == HEIGHT - 1 && r.col == c.col && r.color == c.color
  {
    ScrolledIsScroll(c.cells, c.color);
    c.(cells := Scrolled(c.cells, c.color), row := HEIGHT - 1)
  }

  /** `clear`: a blank screen and the cursor at the top left. */
  function ClearScreen(c: Console): (r: Console)
    ensures Ok(r) && r.col == 0 && r.row == 0 && r.color == c.color
    ensures forall i :: 0 <= i < CELLS ==> r.cells[i] == Blank(c.color)
  {
    c.(cells := Cleared(c.color), col := 0, row := 0)
  }

  /** `set_color`: the background in the high nibble, the foreground's low
      nibble in the low one. */
  function SetColor(c: Console, fg: bv8, bg: bv8): (r: Console)
    ensures r.(color := c.color) == c
    ensures r.color & 0x0F == fg & 0x0F && r.color >> 4 == bg & 0x0F
  {
    c.(color := (bg << 4) | (fg & 0x0F))
  }

  /** The tab stop `(col + 8) & !7`: the next multiple of eight. */
  function NextTabStop(col: nat): (r: nat)
    ensures r % 8 == 0 && col < r <= col + 8
  {
    (col + 8) - (col + 8) % 8
  }

  /** The tab of `write_byte`, as written: the next tab stop, which from
      column 72 on is past the end of the row. */
  function TabAsWritten(col: nat): (r: nat)
    ensures r % 8 == 0 && col < r <= col + 8
    ensures col >= WIDTH - 8 ==> r >= WIDTH
  {
    NextTabStop(col)
  }

  /** The backspace of `write_byte`, as written: the new column, and the
      cell offset it blanks (none at column 0). */
  function BackspaceAsWritten(row: nat, col: nat): (nat, Option<nat>)
  {
    if col > 0 then (col - 1, Some(Index(row, col - 1))) else (col, None)
  }

  /** Two tabs from the last column of the bottom row put the cursor at
      column 88; the backspace that follows blanks offset 2007, outside
      the 2000-cell screen. On another row it blanks column 7 of the row
      below. */
  lemma BackspaceAfterTabsLeavesScreen()
    ensures TabAsWritten(TabAsWritten(79)) == 88
    ensures BackspaceAsWritten(24, 88).1 == Some(2007) && 2007 >= CELLS
    ensures BackspaceAsWritten(3, 88).1 == Some(Index(4, 7))
  {
  }

  /** The tab, with the cursor held at the end of the row. */
  function Tab(col: nat): (r: nat)
    ensures r <= WIDTH && col < WIDTH ==> col < r
  {
    if NextTabStop(col) < WIDTH then NextTabStop(col) else WIDTH
  }

  /** A tab moves to the next multiple of eight, or to the end of the row
      when that is past it. */
  lemma TabStops(col: nat)
    requires col <= WIDTH
    ensures Tab(col) <= WIDTH
    ensures Tab(col) < WIDTH ==> Tab(col) == TabAsWritten(col) && Tab(col) % 8 == 0
    ensures col < Tab(col) <= col + 8 || col == Tab(col) == WIDTH
  {
  }

  /** Scrolls when the cursor has moved below the last row. */
  function Settle(c: Console): Console
    requires |c.cells| == CELLS
  {
    if c.row >= HEIGHT then ScrollUp(c) else c
  }

  /** A byte the console draws: after a wrap at the end of the row, and a
      scroll at the bottom of the screen, the cell under the cursor gets
      the byte in the current colour and the cursor moves right. */
  function Put(c: Console, b: bv8): (r: Console)
    requires Ok(c)
  {
    var w := if c.col >= WIDTH then c.(col := 0, row := c.row + 1) else c;
    var s := Settle(w);
    s.(cells := s.cells[Index(s.row, s.col) := Cell(c.color, b)], col := s.col + 1)
  }

  /** `write_byte` (with the tab held at the end of the row): newline,
      carriage return, tab and backspace move the cursor, bytes above 127
      are skipped, and other bytes are drawn. */
  function WriteByte(c: Console, b: bv8): (r: Console)
    requires Ok(c)
    ensures Ok(r)
  {
    if b == 0x0A then Settle(c.(col := 0, row := c.row + 1))
    else if b == 0x0D then c.(col := 0)
    else if b == 0x09 then c.(col := Tab(c.col))
    else if b == 0x08 then
      if c.col > 0 then c.(col := c.col - 1, cells := c.cells[Index(c.row, c.col - 1) := Blank(c.color)])
      else c
    else if b > 127 then c
    else Put(c, b)
  }

  /** `write_str`. */
  function WriteBytes(c: Console, bs: seq<bv8>): (r: Console)
    requires Ok(c)
    ensures Ok(r)
    decreases |bs|
  {
    if bs == [] then c else WriteBytes(WriteByte(c, bs[0]), bs[1..])
  }

  /** Newline goes to the start of the next row, scrolling at the bottom;
      carriage return only to the start of the row. */
  lemma LineControls(c: Console)
    requires Ok(c)
    ensures var n := WriteByte(c, 0x0A);
      && n.col == 0
      && (c.row + 1 < HEIGHT ==> n.row == c.row + 1 && n.cells == c.cells)
      && (c.row + 1 == HEIGHT ==> n.row == HEIGHT - 1 && ScrolledFrom(n.cells, c.cells, c.color))
    ensures WriteByte(c, 0x0D) == c.(col := 0)
  {
  }

  /** Backspace steps back and blanks the cell it steps onto, which is in
      the cursor's row; at column 0 it does nothing. Bytes above 127 change
      nothing. */
  lemma BackspaceErases(c: Console, b: bv8)
    requires Ok(c)
    ensures c.col == 0 ==> WriteByte(c, 0x08) == c
    ensures c.col > 0 ==>
      var r := WriteByte(c, 0x08);
      && r.col == c.col - 1 && r.row == c.row
      && c.row * WIDTH <= Index(c.row, c.col - 1) < (c.row + 1) * WIDTH
      && r.cells == c.cells[Index(c.row, c.col - 1) := Blank(c.color)]
    ensures b > 127 ==> WriteByte(c, b) == c
  {
  }

  /** A drawn byte lands inside the screen at the cursor (after the wrap
      and scroll) and nowhere else, and the cursor moves one column right. */
  lemma PutDraws(c: Console, b: bv8)
    requires Ok(c) && b <= 127 && b !in {0x0A, 0x0D, 0x09, 0x08}
    ensures var r := WriteByte(c, b);
      var row := if c.col >= WIDTH then c.row + 1 else c.row;
      var col := if c.col >= WIDTH then 0 else c.col;
      && (row < HEIGHT ==> r.row == row && r.cells == c.cells[Index(row, col) := Cell(c.color, b)])
      && (row == HEIGHT ==>
            (r.row == HEIGHT - 1 && r.cells == Scrolled(c.cells, c.color)[Index(HEIGHT - 1, 0) := Cell(c.color, b)]))
      && r.col == col + 1 && Index(r.row, col) < CELLS
  {
  }
}
