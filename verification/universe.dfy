/** A model of the `Universe` grid engine: Conway's Game of Life on a toroidal
    grid whose cells are kept in one flat, row-major store of booleans
    (alive = true).  Every operation is a pure function from the old universe
    to the new one; the one imperative member, `Tick`, follows `tick`'s
    nested row/column loops and is proved equal to the functional `NextGen`.
 */
module Universe {

  /** One more than the largest value of the Rust `u32`. */
  const U32_LIMIT: int := 0x1_0000_0000

  /** The Rust `u32` (dimensions, rows and columns). */
  type U32 = x: int | 0 <= x < U32_LIMIT

  datatype Option<+T> = None | Some(value: T)

  /** One generation: `cells[row * width + column]` is the cell at (row, column). */
  datatype Grid = Grid(width: U32, height: U32, cells: seq<bool>)

  /** The store holds exactly `width * height` cells, and that size is a `u32`. */
  predicate Valid(g: Grid)
  {
    g.width * g.height < U32_LIMIT && |g.cells| == g.width * g.height
  }

  /** 1 for a live cell, 0 for a dead one (`lib.rs` adds `cell as u8`). */
  function Count(alive: bool): nat
  {
    if alive then 1 else 0
  }

  // ---------------------------------------------------------------------------
  // Indexing
  // ---------------------------------------------------------------------------

  /** `get_index`: the flat position of (row, column). */
  function Index(width: nat, row: nat, column: nat): nat
  {
    row * width + column
  }

  /** Multiplying by a natural number keeps the order. */
  lemma MulMonotone(a: nat, b: nat, k: nat)
    requires a <= b
    ensures a * k <= b * k
  {
    var d := b - a;
    assert b * k == a * k + d * k;
  }

  /** An in-range (row, column) lands inside the store. */
  lemma IndexInBounds(width: nat, height: nat, row: nat, column: nat)
    requires row < height && column < width
    ensures Index(width, row, column) < width * height
  {
    assert (row + 1) * width == row * width + width;
    MulMonotone(row + 1, height, width);
    assert height * width == width * height;
  }

  /** Euclidean division is unique: `q * k + m` with `m < k` has quotient `q`
      and remainder `m`. */
  lemma DivModUnique(i: nat, k: nat, q: nat, m: nat)
    requires m < k && i == q * k + m
    ensures i / k == q && i % k == m
  {
    var q', m' := i / k, i % k;
    assert q' * k + m' == q * k + m;
    if q' < q {
      MulMonotone(q' + 1, q, k);
    } else if q' > q {
      MulMonotone(q + 1, q', k);
    }
  }

  /** Dividing a flat index by the width recovers its row and column. */
  lemma IndexSplit(width: nat, row: nat, column: nat)
    requires column < width
    ensures Index(width, row, column) / width == row
    ensures Index(width, row, column) % width == column
  {
    DivModUnique(Index(width, row, column), width, row, column);
  }

  /** Every position of a store of `width * height` cells is some in-range
      (row, column): `get_index` is onto the store. */
  lemma IndexCompose(width: nat, height: nat, i: nat)
    requires i < width * height
    ensures width > 0
    ensures i / width < height && i % width < width
    ensures Index(width, i / width, i % width) == i
  {
    var q := i / width;
    if q >= height {
      MulMonotone(height, q, width);
    }
  }

  /** The cell at an in-range (row, column). */
  function Cell(g: Grid, row: nat, column: nat): bool
    requires Valid(g) && row < g.height && column < g.width
  {
    IndexInBounds(g.width, g.height, row, column);
    g.cells[Index(g.width, row, column)]
  }

  // ---------------------------------------------------------------------------
  // Neighbours
  // ---------------------------------------------------------------------------

  /** The row above `row`; above row 0 is the last row. */
  function North(height: nat, row: nat): nat
    requires row < height
  {
    if row == 0 then height - 1 else row - 1
  }

  /** The row below `row`; below the last row is row 0. */
  function South(height: nat, row: nat): nat
    requires row < height
  {
    if row == height - 1 then 0 else row + 1
  }

  /** The column left of `column`; left of column 0 is the last column. */
  function West(width: nat, column: nat): nat
    requires column < width
  {
    if column == 0 then width - 1 else column - 1
  }

  /** The column right of `column`; right of the last column is column 0. */
  function East(width: nat, column: nat): nat
    requires column < width
  {
    if column == width - 1 then 0 else column + 1
  }

  /** Each wrapped step is the step taken modulo the dimension, so it stays in
      range, and the opposite step undoes it: the grid is a torus. */
  lemma {:induction false} WrapSteps(n: nat, x: nat)
    requires x < n
    ensures North(n, x) == (x - 1) % n && North(n, x) < n
    ensures South(n, x) == (x + 1) % n && South(n, x) < n
    ensures South(n, North(n, x)) == x && North(n, South(n, x)) == x
    ensures West(n, x) == North(n, x) && East(n, x) == South(n, x)
  {
    if x == 0 {
      assert (x - 1) % n == n - 1 by {
        assert x - 1 == (-1) * n + (n - 1);
      }
    } else {
      assert (x - 1) % n == x - 1;
    }
    if x == n - 1 {
      assert (x + 1) % n == 0 by {
        assert x + 1 == 1 * n + 0;
      }
    } else {
      assert (x + 1) % n == x + 1;
    }
  }

  /** `live_neighbor_count`: the live cells among the eight wrapped
      neighbours, visited in `live_neighbor_count`'s order NW, N, NE, W, E, SW, S, SE. */
  function NeighborCount(g: Grid, row: nat, column: nat): (n: nat)
    requires Valid(g) && row < g.height && column < g.width
    ensures n <= 8
  {
    var north := North(g.height, row);
    var south := South(g.height, row);
    var west := West(g.width, column);
    var east := East(g.width, column);
    Count(Cell(g, north, west)) + Count(Cell(g, north, column)) + Count(Cell(g, north, east))
    + Count(Cell(g, row, west)) + Count(Cell(g, row, east))
    + Count(Cell(g, south, west)) + Count(Cell(g, south, column)) + Count(Cell(g, south, east))
  }

  /** The Moore neighbourhood as (row, column) offsets. */
  const Offsets: seq<(int, int)> :=
    [(-1, -1), (-1, 0), (-1, 1), (0, -1), (0, 1), (1, -1), (1, 0), (1, 1)]

  /** The cell at offset `Offsets[k]` from (row, column), coordinates taken
      modulo the dimensions. */
  function Neighbor(g: Grid, row: nat, column: nat, k: nat): bool
    requires Valid(g) && row < g.height && column < g.width && k < |Offsets|
  {
    Cell(g, (row + Offsets[k].0) % g.height, (column + Offsets[k].1) % g.width)
  }

  /** Reference count: how many of the offsets `Offsets[k..]` reach a live
      cell, a coinciding position counted once per offset. */
  function ModularCount(g: Grid, row: nat, column: nat, k: nat): nat
    requires Valid(g) && row < g.height && column < g.width && k <= |Offsets|
    decreases |Offsets| - k
  {
    if k == |Offsets| then 0
    else Count(Neighbor(g, row, column, k)) + ModularCount(g, row, column, k + 1)
  }

  /** The branch-based wraparound of `live_neighbor_count` counts exactly the
      cells the modular definition reaches. */
  lemma NeighborCountIsModular(g: Grid, row: nat, column: nat)
    requires Valid(g) && row < g.height && column < g.width
    ensures NeighborCount(g, row, column) == ModularCount(g, row, column, 0)
  {
    var north, south := North(g.height, row), South(g.height, row);
    var west, east := West(g.width, column), East(g.width, column);
    SourceNeighbors(g, row, column);
    var c0 := Count(Cell(g, north, west));
    var c1 := Count(Cell(g, north, column));
    var c2 := Count(Cell(g, north, east));
    var c3 := Count(Cell(g, row, west));
    var c4 := Count(Cell(g, row, east));
    var c5 := Count(Cell(g, south, west));
    var c6 := Count(Cell(g, south, column));
    var c7 := Count(Cell(g, south, east));
    assert ModularCount(g, row, column, 7) == c7;
    assert ModularCount(g, row, column, 6) == c6 + c7;
    assert ModularCount(g, row, column, 5) == c5 + c6 + c7;
    assert ModularCount(g, row, column, 4) == c4 + c5 + c6 + c7;
    assert ModularCount(g, row, column, 3) == c3 + c4 + c5 + c6 + c7;
    assert ModularCount(g, row, column, 2) == c2 + c3 + c4 + c5 + c6 + c7;
    assert ModularCount(g, row, column, 1) == c1 + c2 + c3 + c4 + c5 + c6 + c7;
  }

  /** The eight offsets reach `live_neighbor_count`'s NW, N, NE, W, E, SW, S,
      SE cells. */
  lemma SourceNeighbors(g: Grid, row: nat, column: nat)
    requires Valid(g) && row < g.height && column < g.width
    ensures Neighbor(g, row, column, 0) == Cell(g, North(g.height, row), West(g.width, column))
    ensures Neighbor(g, row, column, 1) == Cell(g, North(g.height, row), column)
    ensures Neighbor(g, row, column, 2) == Cell(g, North(g.height, row), East(g.width, column))
    ensures Neighbor(g, row, column, 3) == Cell(g, row, West(g.width, column))
    ensures Neighbor(g, row, column, 4) == Cell(g, row, East(g.width, column))
    ensures Neighbor(g, row, column, 5) == Cell(g, South(g.height, row), West(g.width, column))
    ensures Neighbor(g, row, column, 6) == Cell(g, South(g.height, row), column)
    ensures Neighbor(g, row, column, 7) == Cell(g, South(g.height, row), East(g.width, column))
  {
    WrapSteps(g.height, row);
    WrapSteps(g.width, column);
    DivModUnique(row, g.height, 0, row);
    DivModUnique(column, g.width, 0, column);
    var north, south := North(g.height, row), South(g.height, row);
    var west, east := West(g.width, column), East(g.width, column);
    OffsetNeighbor(g, row, column, 0, north, west);
    OffsetNeighbor(g, row, column, 1, north, column);
    OffsetNeighbor(g, row, column, 2, north, east);
    OffsetNeighbor(g, row, column, 3, row, west);
    OffsetNeighbor(g, row, column, 4, row, east);
    OffsetNeighbor(g, row, column, 5, south, west);
    OffsetNeighbor(g, row, column, 6, south, column);
    OffsetNeighbor(g, row, column, 7, south, east);
  }

  /** The neighbour at offset `k` is the cell at the wrapped coordinates. */
  lemma OffsetNeighbor(g: Grid, row: nat, column: nat, k: nat, r: nat, c: nat)
    requires Valid(g) && row < g.height && column < g.width && k < |Offsets|
    requires r == (row + Offsets[k].0) % g.height && c == (column + Offsets[k].1) % g.width
    ensures r < g.height && c < g.width
    ensures Neighbor(g, row, column, k) == Cell(g, r, c)
  {
  }

  /** Each live wrapped neighbour contributes to the count. */
  lemma {:induction false} NeighborCounted(g: Grid, row: nat, column: nat, k: nat)
    requires Valid(g) && row < g.height && column < g.width && k < |Offsets|
    requires Neighbor(g, row, column, k)
    ensures NeighborCount(g, row, column) >= 1
  {
    NeighborCountIsModular(g, row, column);
    ModularCountAtLeast(g, row, column, 0, k);
  }

  /** Wraparound at the corner: (0, 0) counts the live cells at the far
      corner, at the end of its own row and at the bottom of its own column. */
  lemma CornerWrap(g: Grid)
    requires Valid(g) && g.height > 0 && g.width > 0
    ensures Cell(g, g.height - 1, g.width - 1) ==> NeighborCount(g, 0, 0) >= 1
    ensures Cell(g, 0, g.width - 1) ==> NeighborCount(g, 0, 0) >= 1
    ensures Cell(g, g.height - 1, 0) ==> NeighborCount(g, 0, 0) >= 1
  {
    SourceNeighbors(g, 0, 0);
    if Cell(g, g.height - 1, g.width - 1) {
      NeighborCounted(g, 0, 0, 0);
    }
    if Cell(g, 0, g.width - 1) {
      NeighborCounted(g, 0, 0, 3);
    }
    if Cell(g, g.height - 1, 0) {
      NeighborCounted(g, 0, 0, 1);
    }
  }

  /** On a one-column universe west and east both wrap onto the cell itself,
      so a cell counts itself twice and the cells above and below it three
      times each. */
  lemma OneColumnCount(g: Grid, row: nat)
    requires Valid(g) && g.width == 1 && row < g.height
    ensures NeighborCount(g, row, 0)
         == 3 * Count(Cell(g, North(g.height, row), 0)) + 2 * Count(Cell(g, row, 0))
          + 3 * Count(Cell(g, South(g.height, row), 0))
  {
    assert West(g.width, 0) == 0 && East(g.width, 0) == 0;
  }

  lemma {:induction false} ModularCountAtLeast(g: Grid, row: nat, column: nat, j: nat, k: nat)
    requires Valid(g) && row < g.height && column < g.width && j <= k < |Offsets|
    requires Neighbor(g, row, column, k)
    ensures ModularCount(g, row, column, j) >= 1
    decreases k - j
  {
    if j < k {
      ModularCountAtLeast(g, row, column, j + 1, k);
    }
  }

  // ---------------------------------------------------------------------------
  // The transition rule and one generation
  // ---------------------------------------------------------------------------

  /** The rule table of `tick`: under-population, survival, over-population,
      birth, and otherwise unchanged.  Its meaning is the standard B3/S23 rule. */
  function Rule(alive: bool, n: nat): (next: bool)
    ensures next <==> n == 3 || (alive && n == 2)
  {
    if alive && n < 2 then false
    else if alive && (n == 2 || n == 3) then true
    else if alive && n > 3 then false
    else if !alive && n == 3 then true
    else alive
  }

  /** The next state of the cell at flat position `i`, from the old generation. */
  function NextCell(g: Grid, i: nat): bool
    requires Valid(g) && i < |g.cells|
  {
    IndexCompose(g.width, g.height, i);
    Rule(g.cells[i], NeighborCount(g, i / g.width, i % g.width))
  }

  /** The generation after `g`: every cell is decided from `g` alone. */
  function NextGen(g: Grid): (next: Grid)
    requires Valid(g)
    ensures Valid(next) && next.width == g.width && next.height == g.height
  {
    Grid(g.width, g.height, seq(|g.cells|, i requires 0 <= i < |g.cells| => NextCell(g, i)))
  }

  /** Simultaneous update: the new cell at (row, column) is the rule applied to
      the old cell and its neighbour count in the old generation. */
  lemma NextGenAt(g: Grid, row: nat, column: nat)
    requires Valid(g) && row < g.height && column < g.width
    ensures Cell(NextGen(g), row, column) == Rule(Cell(g, row, column), NeighborCount(g, row, column))
  {
    IndexInBounds(g.width, g.height, row, column);
    IndexSplit(g.width, row, column);
  }

  /** Two generations that agree on a cell and on its eight wrapped neighbours
      give that cell the same next state: nothing but the old neighbourhood
      matters, whatever order the cells are visited in. */
  lemma NextGenLocal(g: Grid, h: Grid, row: nat, column: nat)
    requires Valid(g) && Valid(h) && g.width == h.width && g.height == h.height
    requires row < g.height && column < g.width
    requires Cell(g, row, column) == Cell(h, row, column)
    requires forall k :: 0 <= k < |Offsets| ==> Neighbor(g, row, column, k) == Neighbor(h, row, column, k)
    ensures Cell(NextGen(g), row, column) == Cell(NextGen(h), row, column)
  {
    NextGenAt(g, row, column);
    NextGenAt(h, row, column);
    NeighborCountIsModular(g, row, column);
    NeighborCountIsModular(h, row, column);
    ModularCountLocal(g, h, row, column, 0);
  }

  lemma {:induction false} ModularCountLocal(g: Grid, h: Grid, row: nat, column: nat, k: nat)
    requires Valid(g) && Valid(h) && g.width == h.width && g.height == h.height
    requires row < g.height && column < g.width && k <= |Offsets|
    requires forall j :: 0 <= j < |Offsets| ==> Neighbor(g, row, column, j) == Neighbor(h, row, column, j)
    ensures ModularCount(g, row, column, k) == ModularCount(h, row, column, k)
    decreases |Offsets| - k
  {
    if k < |Offsets| {
      ModularCountLocal(g, h, row, column, k + 1);
    }
  }

  /** Every cell is a fixed point of the rule at its own neighbour count. */
  predicate AllFixed(g: Grid)
    requires Valid(g)
  {
    forall row, column | 0 <= row < g.height && 0 <= column < g.width ::
      Rule(Cell(g, row, column), NeighborCount(g, row, column)) == Cell(g, row, column)
  }

  /** A universe is a still life exactly when every cell is a fixed point of
      the rule at its own neighbour count. */
  lemma StillLifeIff(g: Grid)
    requires Valid(g)
    ensures NextGen(g) == g <==> AllFixed(g)
  {
    if NextGen(g) == g {
      forall row, column | 0 <= row < g.height && 0 <= column < g.width
        ensures Rule(Cell(g, row, column), NeighborCount(g, row, column)) == Cell(g, row, column)
      {
        NextGenAt(g, row, column);
      }
    }
    if AllFixed(g) {
      forall i | 0 <= i < |g.cells|
        ensures NextGen(g).cells[i] == g.cells[i]
      {
        StillCell(g, i);
      }
      assert NextGen(g).cells == g.cells;
    }
  }

  lemma StillCell(g: Grid, i: nat)
    requires Valid(g) && AllFixed(g) && i < |g.cells|
    ensures NextGen(g).cells[i] == g.cells[i]
  {
    IndexCompose(g.width, g.height, i);
    var row, column := i / g.width, i % g.width;
    NextGenAt(g, row, column);
  }

  /** `tick`: visits the rows and, inside each, the columns, writing each new
      state into a copy of the store while reading neighbours from the old one;
      the copy then replaces the store. */
  method Tick(g: Grid) returns (next: Grid)
    requires Valid(g)
    ensures next == NextGen(g)
  {
    var cells := g.cells;
    var row: nat := 0;
    while row < g.height
      invariant row <= g.height
      invariant |cells| == |g.cells|
      invariant Index(g.width, row, 0) <= |g.cells|
      invariant forall i :: 0 <= i < Index(g.width, row, 0) ==> cells[i] == NextCell(g, i)
    {
      var column: nat := 0;
      while column < g.width
        invariant column <= g.width
        invariant |cells| == |g.cells|
        invariant Index(g.width, row, column) <= |g.cells|
        invariant forall i :: 0 <= i < Index(g.width, row, column) ==> cells[i] == NextCell(g, i)
      {
        var idx := Index(g.width, row, column);
        IndexInBounds(g.width, g.height, row, column);
        IndexSplit(g.width, row, column);
        var live := g.cells[idx];
        var neighbors := NeighborCount(g, row, column);
        cells := cells[idx := Rule(live, neighbors)];
        column := column + 1;
      }
      assert Index(g.width, row, g.width) == Index(g.width, row + 1, 0);
      row := row + 1;
    }
    assert Index(g.width, g.height, 0) == |cells|;
    next := Grid(g.width, g.height, cells);
    assert next.cells == NextGen(g).cells;
  }

  // ---------------------------------------------------------------------------
  // Mutators
  // ---------------------------------------------------------------------------

  /** `set_width`: the new width with the current height, and a fresh,
      all-dead store of the new size. */
  function SetWidth(g: Grid, width: U32): (r: Grid)
    requires width * g.height < U32_LIMIT
    ensures Valid(r) && r.width == width && r.height == g.height
    ensures forall i :: 0 <= i < |r.cells| ==> !r.cells[i]
  {
    Grid(width, g.height, seq(width * g.height, _ => false))
  }

  /** `set_height`: the new height with the current width, and a fresh,
      all-dead store of the new size. */
  function SetHeight(g: Grid, height: U32): (r: Grid)
    requires height * g.width < U32_LIMIT
    ensures Valid(r) && r.height == height && r.width == g.width
    ensures forall i :: 0 <= i < |r.cells| ==> !r.cells[i]
  {
    Grid(g.width, height, seq(height * g.width, _ => false))
  }

  /** `toggle_cell`: flips the one cell at `get_index(row, column)`.  The bit
      set refuses (panics on) a position past its end, which is `None` here. */
  function ToggleCell(g: Grid, row: U32, column: U32): (r: Option<Grid>)
    requires Index(g.width, row, column) < U32_LIMIT
    ensures r.Some? <==> Index(g.width, row, column) < |g.cells|
    ensures r.Some? ==> r.value.width == g.width && r.value.height == g.height
    ensures r.Some? ==> |r.value.cells| == |g.cells|
    ensures r.Some? ==> forall i :: 0 <= i < |g.cells| ==>
      r.value.cells[i] == (if i == Index(g.width, row, column) then !g.cells[i] else g.cells[i])
  {
    var idx := Index(g.width, row, column);
    if idx < |g.cells| then Some(g.(cells := g.cells[idx := !g.cells[idx]])) else None
  }

  /** An in-range (row, column) is always toggled, never refused. */
  lemma ToggleInRange(g: Grid, row: U32, column: U32)
    requires Valid(g) && row < g.height && column < g.width
    ensures Index(g.width, row, column) < U32_LIMIT
    ensures ToggleCell(g, row, column).Some?
  {
    IndexInBounds(g.width, g.height, row, column);
  }

  /** Toggling the same cell twice restores the universe. */
  lemma ToggleTwice(g: Grid, row: U32, column: U32)
    requires Index(g.width, row, column) < U32_LIMIT
    requires ToggleCell(g, row, column).Some?
    ensures ToggleCell(ToggleCell(g, row, column).value, row, column) == Some(g)
  {
    var once := ToggleCell(g, row, column).value;
    var twice := ToggleCell(once, row, column);
    assert twice.Some?;
    assert twice.value.cells == g.cells;
  }

  /** The flat positions named by a list of (row, column) pairs. */
  function Named(width: nat, pairs: seq<(U32, U32)>): set<nat>
  {
    set k | 0 <= k < |pairs| :: Index(width, pairs[k].0, pairs[k].1)
  }

  /** No pair's flat position overflows `u32`. */
  predicate NoOverflow(width: nat, pairs: seq<(U32, U32)>)
  {
    forall k :: 0 <= k < |pairs| ==> Index(width, pairs[k].0, pairs[k].1) < U32_LIMIT
  }

  /** `set_cells`: makes every named cell alive, in list order.  A pair past
      the end of the store makes the bit set panic, which is `None` here. */
  function SetCells(g: Grid, pairs: seq<(U32, U32)>): (r: Option<Grid>)
    requires NoOverflow(g.width, pairs)
    ensures r.Some? <==> forall k :: 0 <= k < |pairs| ==> Index(g.width, pairs[k].0, pairs[k].1) < |g.cells|
    ensures r.Some? ==> r.value.width == g.width && r.value.height == g.height
    ensures r.Some? ==> |r.value.cells| == |g.cells|
    ensures r.Some? ==> forall i :: 0 <= i < |g.cells| ==>
      r.value.cells[i] == (g.cells[i] || i in Named(g.width, pairs))
    decreases |pairs|
  {
    if |pairs| == 0 then Some(g)
    else
      var idx := Index(g.width, pairs[0].0, pairs[0].1);
      if idx < |g.cells| then
        var rest := SetCells(g.(cells := g.cells[idx := true]), pairs[1..]);
        assert Named(g.width, pairs) == {idx} + Named(g.width, pairs[1..]) by {
          forall i | i in Named(g.width, pairs)
            ensures i in {idx} + Named(g.width, pairs[1..])
          {
            var k :| 0 <= k < |pairs| && i == Index(g.width, pairs[k].0, pairs[k].1);
            if k > 0 {
              assert pairs[1..][k - 1] == pairs[k];
            }
          }
          forall i | i in Named(g.width, pairs[1..])
            ensures i in Named(g.width, pairs)
          {
            var k :| 0 <= k < |pairs[1..]| && i == Index(g.width, pairs[1..][k].0, pairs[1..][k].1);
            assert pairs[1..][k] == pairs[k + 1];
          }
        }
        rest
      else
        None
  }

  /** Setting the same cells again changes nothing. */
  lemma SetCellsIdempotent(g: Grid, pairs: seq<(U32, U32)>)
    requires NoOverflow(g.width, pairs)
    requires SetCells(g, pairs).Some?
    ensures SetCells(SetCells(g, pairs).value, pairs) == SetCells(g, pairs)
  {
    var once := SetCells(g, pairs).value;
    var twice := SetCells(once, pairs);
    assert twice.value.cells == once.cells;
  }

  // ---------------------------------------------------------------------------
  // Construction
  // ---------------------------------------------------------------------------

  /** `new`: a `width` by `height` universe whose cells are the host's coin
      flips (`Math.random() < 0.5`, one per cell, in index order). */
  function New(width: U32, height: U32, coins: seq<bool>): (g: Grid)
    requires width * height < U32_LIMIT && |coins| == width * height
    ensures Valid(g) && g.width == width && g.height == height
  {
    Grid(width, height, coins)
  }

  /** `restart`: refills the store with fresh coin flips, keeping the shape. */
  function Restart(g: Grid, coins: seq<bool>): (r: Grid)
    requires Valid(g) && |coins| == |g.cells|
    ensures Valid(r) && r.width == g.width && r.height == g.height
  {
    g.(cells := coins)
  }
}
