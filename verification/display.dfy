/** A model of the universe's `Display` implementation: one glyph per cell in
    store order, with a line break after every `width` cells. */
module Display {
  import opened Universe

  /** U+25FC BLACK MEDIUM SQUARE, drawn for a live cell. */
  const ALIVE_GLYPH: char := '\U{25FC}'

  /** U+25FB WHITE MEDIUM SQUARE, drawn for a dead cell. */
  const DEAD_GLYPH: char := '\U{25FB}'

  function Glyph(alive: bool): char
  {
    if alive then ALIVE_GLYPH else DEAD_GLYPH
  }

  /** What the formatting loop writes from store position `idx` to the end:
      the glyph of cell `idx`, then a line break when `idx + 1` is a multiple
      of the width. */
  function RenderFrom(g: Grid, idx: nat): string
    requires Valid(g) && idx <= |g.cells|
    decreases |g.cells| - idx
  {
    if idx == |g.cells| then ""
    else
      IndexCompose(g.width, g.height, idx);
      [Glyph(g.cells[idx])] + (if (idx + 1) % g.width == 0 then "\n" else "") + RenderFrom(g, idx + 1)
  }

  /** The whole rendering of a universe. */
  function Render(g: Grid): string
    requires Valid(g)
  {
    RenderFrom(g, 0)
  }

  /** Reference layout, one row at a time: the glyphs of row `row` followed by
      a line break. */
  function RowText(g: Grid, row: nat): string
    requires Valid(g) && row < g.height
  {
    seq(g.width, c requires 0 <= c < g.width => Glyph(Cell(g, row, c))) + "\n"
  }

  /** Reference layout of rows `row` to the last. */
  function Lines(g: Grid, row: nat): string
    requires Valid(g) && row <= g.height
    decreases g.height - row
  {
    if row == g.height then "" else RowText(g, row) + Lines(g, row + 1)
  }

  /** The tail of row `row` from column `column` on: its glyphs, then a line
      break. */
  function RowSuffix(g: Grid, row: nat, column: nat): string
    requires Valid(g) && row < g.height && column <= g.width
  {
    seq(g.width - column, k requires 0 <= k < g.width - column => Glyph(Cell(g, row, column + k))) + "\n"
  }

  /** Inside one row the loop writes exactly that row's remaining glyphs and
      one line break, then carries on at the start of the next row. */
  lemma {:induction false} RenderRowTail(g: Grid, row: nat, column: nat)
    requires Valid(g) && row < g.height && column < g.width
    ensures Index(g.width, row + 1, 0) <= |g.cells|
    ensures RenderFrom(g, Index(g.width, row, column))
         == RowSuffix(g, row, column) + RenderFrom(g, Index(g.width, row + 1, 0))
    decreases g.width - column
  {
    var idx := Index(g.width, row, column);
    IndexInBounds(g.width, g.height, row, column);
    IndexInBounds(g.width, g.height, row, g.width - 1);
    assert Index(g.width, row + 1, 0) == Index(g.width, row, g.width - 1) + 1;
    assert g.cells[idx] == Cell(g, row, column);
    if column == g.width - 1 {
      DivModUnique(idx + 1, g.width, row + 1, 0);
      assert RowSuffix(g, row, column) == [Glyph(Cell(g, row, column))] + "\n";
    } else {
      DivModUnique(idx + 1, g.width, row, column + 1);
      assert Index(g.width, row, column + 1) == idx + 1;
      RenderRowTail(g, row, column + 1);
      assert RowSuffix(g, row, column) == [Glyph(Cell(g, row, column))] + RowSuffix(g, row, column + 1);
    }
  }

  /** From the start of row `row` on, the loop writes exactly the reference
      lines. */
  lemma {:induction false} RenderFromRows(g: Grid, row: nat)
    requires Valid(g) && g.width > 0 && row <= g.height
    ensures Index(g.width, row, 0) <= |g.cells|
    ensures RenderFrom(g, Index(g.width, row, 0)) == Lines(g, row)
    decreases g.height - row
  {
    if row == g.height {
      assert Index(g.width, row, 0) == |g.cells|;
    } else {
      RenderRowTail(g, row, 0);
      RenderFromRows(g, row + 1);
      assert RowSuffix(g, row, 0) == RowText(g, row);
    }
  }

  /** With a positive width, the rendering is the rows in order, each row's
      glyphs followed by one line break, so there are `height` lines. */
  lemma RenderIsLines(g: Grid)
    requires Valid(g) && g.width > 0
    ensures Render(g) == Lines(g, 0)
  {
    RenderFromRows(g, 0);
  }

  /** With width 0 the store is empty and nothing is written, not `height`
      empty lines. */
  lemma RenderZeroWidth(g: Grid)
    requires Valid(g) && g.width == 0
    ensures Render(g) == ""
  {
  }

  /** Where row `rows` of a layout starts when every row is `stride`
      characters long: `rows * stride`, built up one row at a time. */
  function RowStart(stride: nat, rows: nat): (p: nat)
    ensures p == rows * stride
  {
    if rows == 0 then 0 else stride + RowStart(stride, rows - 1)
  }

  /** Each reference line is `width` glyphs and a line break. */
  lemma {:induction false} LinesLength(g: Grid, row: nat)
    requires Valid(g) && row <= g.height
    ensures |Lines(g, row)| == RowStart(g.width + 1, g.height - row)
    decreases g.height - row
  {
    if row < g.height {
      LinesLength(g, row + 1);
    }
  }

  /** Where each glyph and line break sits: the cell at (row, column) is drawn
      `column` characters after the start of its line, and the line's break
      `width` characters after it. */
  lemma {:induction false} LinesAt(g: Grid, from: nat, row: nat, k: nat)
    requires Valid(g) && from <= row < g.height && k <= g.width
    ensures RowStart(g.width + 1, row - from) + k < |Lines(g, from)|
    ensures Lines(g, from)[RowStart(g.width + 1, row - from) + k]
         == if k < g.width then Glyph(Cell(g, row, k)) else '\n'
    decreases row - from
  {
    if from == row {
      LinesFirstRow(g, from, k);
    } else {
      LinesAt(g, from + 1, row, k);
      LinesLaterRow(g, from, RowStart(g.width + 1, row - (from + 1)) + k);
    }
  }

  lemma LinesFirstRow(g: Grid, from: nat, k: nat)
    requires Valid(g) && from < g.height && k <= g.width
    ensures k < |Lines(g, from)|
    ensures Lines(g, from)[k] == if k < g.width then Glyph(Cell(g, from, k)) else '\n'
  {
    assert Lines(g, from) == RowText(g, from) + Lines(g, from + 1);
  }

  lemma LinesLaterRow(g: Grid, from: nat, p: nat)
    requires Valid(g) && from < g.height && p < |Lines(g, from + 1)|
    ensures g.width + 1 + p < |Lines(g, from)|
    ensures Lines(g, from)[g.width + 1 + p] == Lines(g, from + 1)[p]
  {
    var here, rest := RowText(g, from), Lines(g, from + 1);
    assert |here| == g.width + 1;
    assert Lines(g, from) == here + rest;
  }

  /** The rendering, cell by cell: glyph of (row, column) at
      `row * (width + 1) + column`, a line break closing each row, and
      `width * height + height` characters in all. */
  lemma RenderLayout(g: Grid, row: nat, column: nat)
    requires Valid(g) && g.width > 0 && row < g.height && column <= g.width
    ensures |Render(g)| == |g.cells| + g.height
    ensures row * (g.width + 1) + column < |Render(g)|
    ensures Render(g)[row * (g.width + 1) + column]
         == if column < g.width then Glyph(Cell(g, row, column)) else '\n'
  {
    RenderIsLines(g);
    LinesLength(g, 0);
    LinesAt(g, 0, row, column);
    assert g.height * (g.width + 1) == g.width * g.height + g.height;
  }
}
