/** The 80x25 VGA text buffer shared by the kernel console
    (kernel/src/drivers/console.rs) and the bootloader's writer
    (bootloader/src/vga.rs): cells are `u16`s with the colour in the high
    byte and the character in the low byte, stored row by row. */
module TextGrid {
  const WIDTH: nat := 80
  const HEIGHT: nat := 25
  const CELLS: nat := WIDTH * HEIGHT

  /** The screen memory, `CELLS` cells long. */
  type Cells = seq<bv16>

  /** The cell value `color << 8 | ch`. */
  function Cell(color: bv8, ch: bv8): bv16
  {
    ((color as bv16) << 8) | (ch as bv16)
  }

  /** A cell is its colour and its character side by side. */
  lemma CellParts(color: bv8, ch: bv8)
    ensures Cell(color, ch) >> 8 == color as bv16
    ensures Cell(color, ch) & 0xFF == ch as bv16
    ensures Cell(color, ch) as int == color as int * 256 + ch as int
  {
  }

  /** A space in the given colour. */
  function Blank(color: bv8): bv16 { Cell(color, 0x20) }

  /** The cell index of a cursor position. */
  function Index(row: nat, col: nat): nat { row * WIDTH + col }

  lemma IndexInside(row: nat, col: nat)
    requires row < HEIGHT && col < WIDTH
    ensures Index(row, col) < CELLS
    ensures Index(row, col) / WIDTH == row && Index(row, col) % WIDTH == col
  {
  }

  /** The screen after `scroll`: every row moves up one, and the last row
      is blank. */
  ghost predicate ScrolledFrom(t: Cells, s: Cells, color: bv8)
    requires |s| == CELLS
  {
    && |t| == CELLS
    && (forall i :: 0 <= i < CELLS - WIDTH ==> t[i] == s[i + WIDTH])
    && (forall i :: CELLS - WIDTH <= i < CELLS ==> t[i] == Blank(color))
  }

  /** `scroll`'s cell copying: for rows 1 to 24, each cell is copied to the
      same column of the row above; then the last row is blanked. */
  method Scroll(s: Cells, color: bv8) returns (t: Cells)
    requires |s| == CELLS
    ensures ScrolledFrom(t, s, color)
  {
    t := s;
    var row := 1;
    var dst := 0;
    while row < HEIGHT
      invariant 1 <= row <= HEIGHT && |t| == CELLS && dst == (row - 1) * WIDTH
      invariant forall i :: 0 <= i < dst ==> t[i] == s[i + WIDTH]
      invariant forall i :: dst <= i < CELLS ==> t[i] == s[i]
    {
      var col := 0;
      while col < WIDTH
        invariant 0 <= col <= WIDTH && |t| == CELLS && dst == (row - 1) * WIDTH + col
        invariant forall i :: 0 <= i < dst ==> t[i] == s[i + WIDTH]
        invariant forall i :: dst <= i < CELLS ==> t[i] == s[i]
      {
        // The source cell `row * WIDTH + col` is one row below `dst`.
        t := t[dst := t[dst + WIDTH]];
        dst := dst + 1;
        col := col + 1;
      }
      row := row + 1;
    }
    var col := 0;
    while col < WIDTH
      invariant 0 <= col <= WIDTH && |t| == CELLS
      invariant forall i :: 0 <= i < CELLS - WIDTH ==> t[i] == s[i + WIDTH]
      invariant forall i :: CELLS - WIDTH <= i < CELLS - WIDTH + col ==> t[i] == Blank(color)
    {
      t := t[(HEIGHT - 1) * WIDTH + col := Blank(color)];
      col := col + 1;
    }
  }

  /** `clear`'s loop: every cell becomes a blank in the current colour. */
  method Clear(s: Cells, color: bv8) returns (t: Cells)
    requires |s| == CELLS
    ensures |t| == CELLS && forall i :: 0 <= i < CELLS ==> t[i] == Blank(color)
  {
    t := s;
    var i := 0;
    while i < CELLS
      invariant 0 <= i <= CELLS && |t| == CELLS
      invariant forall j :: 0 <= j < i ==> t[j] == Blank(color)
    {
      t := t[i := Blank(color)];
      i := i + 1;
    }
  }

  /** The scrolled screen as a value: the rows below the first, then a
      blank row. */
  function Scrolled(s: Cells, color: bv8): (t: Cells)
    requires |s| == CELLS
    ensures |t| == CELLS
  {
    s[WIDTH..] + seq(WIDTH, _ => Blank(color))
  }

  /** The value agrees with the loop's description. */
  lemma ScrolledIsScroll(s: Cells, color: bv8)
    requires |s| == CELLS
    ensures ScrolledFrom(Scrolled(s, color), s, color)
  {
  }

  /** The cleared screen as a value. */
  function Cleared(color: bv8): (t: Cells)
    ensures |t| == CELLS
  {
    seq(CELLS, _ => Blank(color))
  }
}
