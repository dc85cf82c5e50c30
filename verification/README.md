# Game of Life universe, modelled in Dafny

This project models the `Universe` grid engine of a WebAssembly Game of Life
(`gol_wasm/src/lib.rs`). A universe is a `width` by `height` torus of cells.
It is stored as one flat, row-major bit set in which cell (row, column) sits
at `row * width + column`. The engine:

- looks up the eight neighbours of a cell with wraparound at the edges;
- advances one generation by applying the birth/survival/death rule to every
  cell, reading only the previous generation;
- clears the store on every resize;
- lets the host toggle single cells or switch lists of cells on;
- renders the grid as text, one glyph per cell and one line per row.

The model has two modules:

- `Universe` (`universe.dfy`) covers the grid, indexing, neighbours, the rule,
  one generation and the mutators. The data type is
  `Grid(width, height, cells: seq<bool>)`, and `Valid` says that
  `|cells| == width * height` and that this size fits in a `u32`. Each
  operation is a pure function from the old universe to the new one. `Tick`
  is the one imperative member: it keeps the nested row/column loops of `tick`
  and is proved equal to the functional `NextGen`.
- `Display` (`display.dfy`) covers the `fmt::Display` implementation. It is
  modelled as the string the formatting loop writes, and proved equal to a
  row-by-row reference layout.

The accessors `width()`, `height()` and `get_cells()` are the fields `width`,
`height` and `cells` of `Grid`.

Where the bit set panics on an index past its end (`set`, `toggle`), the model
returns `None` instead of requiring in-range coordinates. A column past the
width whose flat index still falls inside the store therefore reaches another
cell, just as in `lib.rs`. The only preconditions on the mutators exclude
`u32` overflow of `row * width + column` and `width * height`.

## Model

| member | source | states |
|---|---|---|
| Universe.IndexInBounds | gol_wasm/src/lib.rs:48-50 | an in-range (row, column) gives a flat index below `width * height` |
| Universe.IndexSplit | gol_wasm/src/lib.rs:48-50 | dividing the flat index by the width gives back the row, and the remainder gives back the column, so distinct in-range cells never share an index |
| Universe.IndexCompose | gol_wasm/src/lib.rs:48-50 | every position of the store is the index of exactly the in-range (row, column) given by its quotient and remainder by the width; a non-empty store has a positive width |
| Universe.WrapSteps | gol_wasm/src/lib.rs:83-97 | north/south/west/east are the step minus or plus one taken modulo the dimension, so they stay in range; row 0 wraps to `height - 1` and the last row to 0; a north step and a south step undo each other |
| Universe.NeighborCount | gol_wasm/src/lib.rs:80-124 | the live-neighbour count never exceeds 8 |
| Universe.SourceNeighbors | gol_wasm/src/lib.rs:99-121 | the eight lookups NW, N, NE, W, E, SW, S, SE are exactly the cells at the eight Moore offsets taken modulo the dimensions |
| Universe.NeighborCountIsModular | gol_wasm/src/lib.rs:80-124 | the branch-based count equals an independent count over the eight offsets with modular wraparound, coinciding positions counted once per offset |
| Universe.NeighborCounted | gol_wasm/src/lib.rs:80-124 | any live cell at one of the eight wrapped offsets makes the count at least 1 |
| Universe.CornerWrap | gol_wasm/src/lib.rs:83-97 | cell (0, 0) counts a live cell at the far corner, at the end of row 0 and at the bottom of column 0 |
| Universe.OneColumnCount | gol_wasm/src/lib.rs:87-112 | on a one-column universe west and east are the cell itself, so a cell counts itself twice and the cells above and below it, in rows `North` and `South` of the same column, three times each |
| Universe.Rule | gol_wasm/src/lib.rs:144-150 | the five-armed match is the standard B3/S23 rule: the next state is alive exactly when the count is 3, or when the cell is alive and the count is 2 |
| Universe.NextGen | gol_wasm/src/lib.rs:134-154 | one generation keeps the width and height and a store of `width * height` cells |
| Universe.NextGenAt | gol_wasm/src/lib.rs:136-151 | the new cell at (row, column) is the rule applied to the old cell and to its neighbour count in the old generation |
| Universe.NextGenLocal | gol_wasm/src/lib.rs:138-140 | two generations that agree on a cell and its eight wrapped neighbours give that cell the same next state, so the visiting order cannot matter |
| Universe.StillLifeIff | gol_wasm/src/lib.rs:130-155 | a tick leaves a universe unchanged exactly when every cell is a fixed point of the rule at its own neighbour count |
| Universe.Tick | gol_wasm/src/lib.rs:130-155 | the nested row/column loops, writing into a copy and reading the old store, produce exactly `NextGen` |
| Universe.SetWidth | gol_wasm/src/lib.rs:67-71 | the new width with the old height, a store of `width * height` cells, every cell dead |
| Universe.SetHeight | gol_wasm/src/lib.rs:74-78 | the new height with the old width, a store of `width * height` cells, every cell dead |
| Universe.ToggleCell | gol_wasm/src/lib.rs:190-193 | refused exactly when the flat index is past the store; otherwise only that cell flips, and the dimensions and every other cell are unchanged |
| Universe.ToggleInRange | gol_wasm/src/lib.rs:190-193 | toggling an in-range (row, column) of a valid universe is never refused |
| Universe.ToggleTwice | gol_wasm/src/lib.rs:190-193 | toggling the same cell twice restores the universe |
| Universe.SetCells | gol_wasm/src/lib.rs:59-64 | refused exactly when some listed index is past the store; otherwise each cell is alive afterwards exactly when it was alive before or is listed, so the operation only adds |
| Universe.SetCellsIdempotent | gol_wasm/src/lib.rs:59-64 | setting the same list twice gives the same universe as setting it once |
| Universe.New | gol_wasm/src/lib.rs:161-171 | construction yields a valid universe of the requested shape; by its definition the cells are the supplied coin flips |
| Universe.Restart | gol_wasm/src/lib.rs:39-46 | refilling keeps the shape and validity; by its definition every cell is replaced by the supplied coin flip |
| Display.RenderRowTail | gol_wasm/src/lib.rs:198-208 | inside a row the loop writes that row's remaining glyphs and exactly one line break, at the row's last cell |
| Display.RenderIsLines | gol_wasm/src/lib.rs:196-211 | with a positive width the text is the rows in order, each row's glyphs followed by one line break, giving `height` lines |
| Display.RenderZeroWidth | gol_wasm/src/lib.rs:198-208 | with width 0 the store is empty and nothing is written |
| Display.RenderLayout | gol_wasm/src/lib.rs:196-211 | the glyph of (row, column), `◼` alive and `◻` dead, is at `row * (width + 1) + column`; a line break sits at `row * (width + 1) + width`; the text is `width * height + height` characters long |

## Left out

- Random fill: `init` draws `Math.random() < 0.5` for every cell. This is a foreign call returning a float. `New` and `Restart` take the sequence of outcomes as a parameter instead.
- `Timer` and its `Drop` implementation only measure time on the host console.
- `cells()` returns a raw pointer into the bit set's words for the JavaScript host. There is nothing to state about it beyond `cells`.
- The `wasm_bindgen` attributes, `utils::set_panic_hook()` and the `log!` of the initial universe are host bindings and logging.
- The bit packing of `FixedBitSet` is a library this model does not see. The store is a `seq<bool>`, and only indexing, `set`, `toggle` and the all-dead `with_capacity` are used.
- `u32` overflow of `width * height` and of `row * width + column` is excluded by preconditions rather than modelled. A debug build would panic there, and a release build would wrap.
- The concrete patterns (a 2x2 block that is a still life, a blinker of period 2) are not worked out cell by cell. They are instances of `StillLifeIff` and `NextGenAt` and are not stated as separate lemmas.
- Formatter errors: `write!(f, …)?` in `fmt` returns early when the formatter reports an error. `Render` models only the successful write, because `to_string` writes into a `String`, which never fails.
