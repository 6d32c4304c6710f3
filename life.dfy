/**
 * The Game of Life board of main.rs as the code is written: a `Board` that
 * holds a dense row-major vector of cells, its neighbour count
 * `alive_neighbours` and the step function `next_board`.
 *
 * The count examines only three offset pairs, looks the neighbour up with
 * its column and row swapped, and the step never brings a dead cell to life.
 */
module Life {
  import opened Wrapping
  import opened Arithmetic

  /** The state of one cell (`Cell::DEAD`, `Cell::ALIVE`). */
  datatype Cell = Dead | Alive

  /** The exclusive end of the range `0..2` that both offset loops of
      `alive_neighbours` run over. */
  const OFFSET_END: nat := 2

  /** The value held by a `Board`: its dimensions and its cell vector. */
  datatype Grid = Grid(width: Usize, height: Usize, cells: seq<Cell>)

  /** A vector of exactly width*height cells, with width*height a usize. */
  predicate Wf(g: Grid)
  {
    g.width * g.height < MODULUS && |g.cells| == g.width * g.height
  }

  /** The vector index `row * width + col` that `cell_at` and `set_at` use. */
  function Index(width: nat, col: nat, row: nat): nat
  {
    row * width + col
  }

  /** `Board::new(width, height)`: every cell dead. */
  function Blank(width: Usize, height: Usize): (g: Grid)
    requires width * height < MODULUS
    ensures Wf(g) && g.width == width && g.height == height
    ensures forall i | 0 <= i < |g.cells| :: g.cells[i] == Dead
  {
    MulNonNegative(width, height);
    Grid(width, height, seq(width * height, _ => Dead))
  }

  /** The cell `cell_at(col, row)` reads. */
  function At(g: Grid, col: Usize, row: Usize): Cell
    requires Index(g.width, col, row) < |g.cells|
  {
    g.cells[Index(g.width, col, row)]
  }

  /** The board after `set_at(col, row, cell)`. */
  function Set(g: Grid, col: Usize, row: Usize, cell: Cell): (r: Grid)
    requires Index(g.width, col, row) < |g.cells|
    ensures r.width == g.width && r.height == g.height && |r.cells| == |g.cells|
    ensures At(r, col, row) == cell
    ensures forall i | 0 <= i < |g.cells| && i != Index(g.width, col, row) :: r.cells[i] == g.cells[i]
  {
    g.(cells := g.cells[Index(g.width, col, row) := cell])
  }

  /** The column of vector index i on a board of the given width. */
  function ColOf(width: nat, i: nat): (c: nat)
    requires 0 < width
    ensures c < width
  {
    if i < width then i else ColOf(width, i - width)
  }

  /** The row of vector index i on a board of the given width. */
  function RowOf(width: nat, i: nat): nat
    requires 0 < width
  {
    if i < width then 0 else RowOf(width, i - width) + 1
  }

  /** Every index is the row-major index of its column and row. */
  lemma {:induction false} IndexOfCoordinates(width: nat, i: nat)
    requires 0 < width
    ensures Index(width, ColOf(width, i), RowOf(width, i)) == i
  {
    if width <= i {
      IndexOfCoordinates(width, i - width);
      NextRowIndex(width, ColOf(width, i), RowOf(width, i - width));
    }
  }

  /** Row-major indexing is one-to-one: the index of (col, row) has column
      col and row row. */
  lemma {:induction false} IndexCoordinates(width: nat, col: nat, row: nat)
    requires col < width
    ensures ColOf(width, Index(width, col, row)) == col
    ensures RowOf(width, Index(width, col, row)) == row
  {
    if 0 < row {
      IndexCoordinates(width, col, row - 1);
      NextRowIndex(width, col, row - 1);
    }
  }

  /** ColOf and RowOf are the remainder and quotient of i by the width. */
  lemma CoordinatesAreRemainderAndQuotient(width: nat, i: nat)
    requires 0 < width
    ensures ColOf(width, i) == i % width && RowOf(width, i) == i / width
  {
    IndexOfCoordinates(width, i);
    var c, r := ColOf(width, i), RowOf(width, i);
    var q, m := i / width, i % width;
    assert (q - r) * width == c - m by {
      assert i == q * width + m;
      MulSubDistributes(q, r, width);
    }
    if q > r {
      MulAtLeast(q - r, width);
    } else if q < r {
      MulAtLeast(r - q, width);
    }
  }

  lemma NextRowIndex(width: nat, col: nat, row: nat)
    ensures Index(width, col, row + 1) == Index(width, col, row) + width
  {
  }

  /** Every in-range coordinate lies inside the vector. */
  lemma IndexInRange(width: nat, height: nat, col: nat, row: nat)
    requires col < width && row < height
    ensures Index(width, col, row) < width * height
  {
    MulSubDistributes(height, row, width);
    MulAtLeast(height - row, width);
  }

  /** Every index of the vector lies on the board. */
  lemma CoordinatesInRange(width: nat, height: nat, i: nat)
    requires i < width * height
    ensures 0 < width && RowOf(width, i) < height
  {
    if width == 0 {
      MulZero(height);
    }
    IndexOfCoordinates(width, i);
    var r := RowOf(width, i);
    if height <= r {
      MulMonotone(height, r, width);
      MulCommutes(width, height);
    }
  }

  /** Writing one cell leaves every other in-range cell as it was. */
  lemma SetAtOtherCell(g: Grid, col: Usize, row: Usize, cell: Cell, col': Usize, row': Usize)
    requires Wf(g) && col < g.width && row < g.height && col' < g.width && row' < g.height
    requires col' != col || row' != row
    ensures Index(g.width, col, row) < |g.cells| && Index(g.width, col', row') < |g.cells|
    ensures At(Set(g, col, row, cell), col', row') == At(g, col', row')
  {
    IndexInRange(g.width, g.height, col, row);
    IndexInRange(g.width, g.height, col', row');
    IndexCoordinates(g.width, col, row);
    IndexCoordinates(g.width, col', row');
  }

  // ---------------------------------------------------------------------
  // Neighbour count

  /** The neighbour coordinate `x.wrapping_add(d).wrapping_sub(1) % n`. */
  function NeighbourCoord(x: Usize, d: nat, n: Usize): (r: Usize)
    requires d < OFFSET_END && n > 0
    ensures r < n
    ensures 1 <= x + d ==> r == (x + d - 1) % n
    ensures x + d == 0 ==> r == (MODULUS - 1) % n
  {
    WrappingSub(WrappingAdd(x, d), 1) % n
  }

  /** Away from coordinate 0 and the wrap past n, the neighbour coordinate
      is simply x + d - 1. */
  lemma NeighbourCoordNoWrap(x: Usize, d: nat, n: Usize)
    requires d < OFFSET_END && 1 <= x + d <= n
    ensures NeighbourCoord(x, d, n) == x + d - 1
  {
    ModOfSmall(x + d - 1, n);
  }

  /** The offset pairs the loops examine: all but (1, 1). */
  predicate Examined(dc: nat, dr: nat)
  {
    dr != 1 || dc != 1
  }

  /** The vector index read for offset (dc, dr) of (col, row). The lookup is
      `cell_at(r, c)`, so the index is c * width + r. */
  function NeighbourIndex(g: Grid, col: Usize, row: Usize, dc: nat, dr: nat): nat
    requires g.width > 0 && g.height > 0 && dc < OFFSET_END && dr < OFFSET_END
  {
    var c := NeighbourCoord(col, dc, g.width);
    var r := NeighbourCoord(row, dr, g.height);
    Index(g.width, r, c)
  }

  /** `alive_neighbours(col, row)` neither divides by zero nor indexes past
      the vector. */
  predicate NeighboursDefined(g: Grid, col: Usize, row: Usize)
  {
    g.width > 0 && g.height > 0 &&
    forall dc: nat, dr: nat | dc < OFFSET_END && dr < OFFSET_END && Examined(dc, dr) ::
      NeighbourIndex(g, col, row, dc, dr) < |g.cells|
  }

  /** The cell looked up for offset (dc, dr) of (col, row). */
  function LookupCell(g: Grid, col: Usize, row: Usize, dc: nat, dr: nat): Cell
    requires NeighboursDefined(g, col, row)
    requires dc < OFFSET_END && dr < OFFSET_END && Examined(dc, dr)
  {
    assert NeighbourIndex(g, col, row, dc, dr) < |g.cells|;
    At(g, NeighbourCoord(row, dr, g.height), NeighbourCoord(col, dc, g.width))
  }

  /** What offset (dc, dr) adds to the count. */
  function Contribution(g: Grid, col: Usize, row: Usize, dc: nat, dr: nat): nat
    requires NeighboursDefined(g, col, row) && dc < OFFSET_END && dr < OFFSET_END
  {
    if Examined(dc, dr) && LookupCell(g, col, row, dc, dr) == Alive then 1 else 0
  }

  /** The count added by the inner loop for column offset dc after k rounds. */
  function InnerCount(g: Grid, col: Usize, row: Usize, dc: nat, k: nat): (n: nat)
    requires NeighboursDefined(g, col, row) && dc < OFFSET_END && k <= OFFSET_END
    ensures n <= k
  {
    if k == 0 then 0 else InnerCount(g, col, row, dc, k - 1) + Contribution(g, col, row, dc, k - 1)
  }

  /** The count after j rounds of the outer loop. */
  function OuterCount(g: Grid, col: Usize, row: Usize, j: nat): (n: nat)
    requires NeighboursDefined(g, col, row) && j <= OFFSET_END
    ensures n <= OFFSET_END * j
  {
    if j == 0 then 0 else OuterCount(g, col, row, j - 1) + InnerCount(g, col, row, j - 1, OFFSET_END)
  }

  /** The value `alive_neighbours(col, row)` returns. */
  function Neighbours(g: Grid, col: Usize, row: Usize): nat
    requires NeighboursDefined(g, col, row)
  {
    OuterCount(g, col, row, OFFSET_END)
  }

  /** The count is the number of live cells among exactly three lookups:
      offsets (0, 0), (0, 1) and (1, 0). */
  lemma {:induction false} NeighboursAreThreeCells(g: Grid, col: Usize, row: Usize)
    requires NeighboursDefined(g, col, row)
    ensures Neighbours(g, col, row)
         == multiset{LookupCell(g, col, row, 0, 0), LookupCell(g, col, row, 0, 1), LookupCell(g, col, row, 1, 0)}[Alive]
  {
    assert InnerCount(g, col, row, 0, 2) == Contribution(g, col, row, 0, 0) + Contribution(g, col, row, 0, 1);
    assert InnerCount(g, col, row, 1, 2) == Contribution(g, col, row, 1, 0);
    assert OuterCount(g, col, row, 2) == InnerCount(g, col, row, 0, 2) + InnerCount(g, col, row, 1, 2);
  }

  /** No cell ever has more than three live neighbours. */
  lemma NeighboursAtMost3(g: Grid, col: Usize, row: Usize)
    requires NeighboursDefined(g, col, row)
    ensures Neighbours(g, col, row) <= 3
  {
    NeighboursAreThreeCells(g, col, row);
  }

  // ---------------------------------------------------------------------
  // Step

  /** `next_board` on this board neither divides by zero nor indexes past a
      vector: the lookups of every cell stay inside the vector. */
  predicate StepDefined(g: Grid)
  {
    Wf(g) &&
    forall col: Usize, row: Usize | col < g.width && row < g.height :: NeighboursDefined(g, col, row)
  }

  /** Vector index i holds the cell at column i % width and row i / width,
      which is on the board. */
  lemma CellOfIndex(g: Grid, i: nat)
    requires StepDefined(g) && i < |g.cells|
    ensures 0 < g.width && RowOf(g.width, i) < g.height
    ensures Index(g.width, ColOf(g.width, i), RowOf(g.width, i)) == i
    ensures NeighboursDefined(g, ColOf(g.width, i), RowOf(g.width, i))
  {
    CoordinatesInRange(g.width, g.height, i);
    IndexOfCoordinates(g.width, i);
  }

  /** The cell `next_board` leaves at (col, row). */
  function NextCell(g: Grid, col: Usize, row: Usize): Cell
    requires Index(g.width, col, row) < |g.cells| && NeighboursDefined(g, col, row)
  {
    var nbors := Neighbours(g, col, row);
    match At(g, col, row)
    case Alive => if nbors == 2 || nbors == 3 then Alive else Dead
    // the arm for a dead cell with three neighbours writes DEAD; every
    // other cell keeps the DEAD that `Board::new` put there
    case Dead => Dead
  }

  /** The board `next_board` returns. */
  function Step(g: Grid): (r: Grid)
    requires StepDefined(g)
    ensures Wf(r) && r.width == g.width && r.height == g.height
  {
    Grid(g.width, g.height,
         seq(|g.cells|, i requires 0 <= i < |g.cells| =>
           CellOfIndex(g, i); NextCell(g, ColOf(g.width, i), RowOf(g.width, i))))
  }

  /** A cell of the next board is alive exactly when it was alive and had two
      or three live neighbours. */
  lemma StepCell(g: Grid, col: Usize, row: Usize)
    requires StepDefined(g) && col < g.width && row < g.height
    ensures Index(g.width, col, row) < |g.cells| && NeighboursDefined(g, col, row)
    ensures At(Step(g), col, row) == Alive
        <==> At(g, col, row) == Alive && (Neighbours(g, col, row) == 2 || Neighbours(g, col, row) == 3)
  {
    IndexInRange(g.width, g.height, col, row);
    IndexCoordinates(g.width, col, row);
  }

  /** The indices of the live cells. */
  function LiveCells(g: Grid): set<nat>
  {
    set i | 0 <= i < |g.cells| && g.cells[i] == Alive
  }

  /** No cell is born: the live cells of the next board are among those of
      the board. */
  lemma StepNoBirths(g: Grid)
    requires StepDefined(g)
    ensures LiveCells(Step(g)) <= LiveCells(g)
  {
    forall i | i in LiveCells(Step(g)) ensures i in LiveCells(g) {
      CellOfIndex(g, i);
    }
  }

  /** An all-dead board steps to an all-dead board. */
  lemma AllDeadStaysDead(g: Grid)
    requires StepDefined(g) && LiveCells(g) == {}
    ensures LiveCells(Step(g)) == {}
  {
    StepNoBirths(g);
  }

  /** The swapped lookup c * width + r stays inside the vector when the
      board is at least as tall as it is wide. */
  lemma SwappedIndexInRange(width: nat, height: nat, c: nat, r: nat)
    requires c < width <= height && r < height
    ensures Index(width, r, c) < width * height
  {
    assert c * width <= (width - 1) * width;
    assert (width - 1) * width <= (width - 1) * height;
  }

  /** On a board no wider than it is tall every lookup is in bounds. */
  lemma NarrowBoardStepDefined(g: Grid)
    requires Wf(g) && g.width <= g.height
    ensures StepDefined(g)
  {
    forall col: Usize, row: Usize | col < g.width && row < g.height
      ensures NeighboursDefined(g, col, row)
    {
      forall dc: nat, dr: nat | dc < OFFSET_END && dr < OFFSET_END && Examined(dc, dr)
        ensures NeighbourIndex(g, col, row, dc, dr) < |g.cells|
      {
        SwappedIndexInRange(g.width, g.height, NeighbourCoord(col, dc, g.width), NeighbourCoord(row, dr, g.height));
      }
    }
  }

  /** On a board wider than it is tall, the lookup of offset (1, 0) from
      the last column of the top row lands past the end of the vector. */
  lemma WideBoardLookupOutOfBounds(g: Grid)
    requires Wf(g) && 0 < g.height < g.width
    ensures !NeighboursDefined(g, g.width - 1, 0)
  {
    var w, h := g.width, g.height;
    NeighbourCoordNoWrap(w - 1, 1, w);
    LastColumnPastEnd(w, h, NeighbourCoord(0, 0, h));
    assert Examined(1, 0);
  }

  lemma LastColumnPastEnd(w: nat, h: nat, r: nat)
    requires 0 < h < w
    ensures w * h <= Index(w, r, w - 1)
  {
    MulMonotone(h, w - 1, w);
  }

  /** On a non-empty board `next_board` stays in bounds exactly when the
      board is no wider than it is tall. */
  lemma StepDefinedIffNarrow(g: Grid)
    requires Wf(g) && g.width > 0 && g.height > 0
    ensures StepDefined(g) <==> g.width <= g.height
  {
    if g.width <= g.height {
      NarrowBoardStepDefined(g);
    } else {
      WideBoardLookupOutOfBounds(g);
    }
  }

  /** `main`: on the 10 x 10 board with only (0, 0) alive, the lookups of
      (0, 0) read vector indices 55, 50 and 5 (the wrap at 0 lands on
      column and row 5), all dead, so the next board is all dead. */
  lemma LoneCornerCellDies()
    ensures StepDefined(Set(Blank(10, 10), 0, 0, Alive))
    ensures Step(Set(Blank(10, 10), 0, 0, Alive)) == Blank(10, 10)
  {
    var g := Set(Blank(10, 10), 0, 0, Alive);
    NarrowBoardStepDefined(g);
    assert NeighbourCoord(0, 0, 10) == 5;
    assert NeighbourIndex(g, 0, 0, 0, 0) == 55;
    assert NeighbourIndex(g, 0, 0, 0, 1) == 50;
    assert NeighbourIndex(g, 0, 0, 1, 0) == 5;
    NeighboursAreThreeCells(g, 0, 0);
    StepCell(g, 0, 0);
    StepNoBirths(g);
    var s := Step(g);
    forall i | 0 <= i < |s.cells| ensures s.cells[i] == Dead {
      if i != 0 {
        assert i !in LiveCells(g);
      }
    }
    assert s.cells == Blank(10, 10).cells;
  }

  // ---------------------------------------------------------------------
  // The board object

  /** `Board`: the dimensions and the row-major cell vector. */
  class Board {
    var width: Usize
    var height: Usize
    var board: seq<Cell>

    /** The board's value. */
    ghost function Value(): Grid
      reads this
    {
      Grid(width, height, board)
    }

    ghost predicate Valid()
      reads this
    {
      Wf(Value())
    }

    /** `Board::new`: the product width*height must not overflow. */
    constructor (width: Usize, height: Usize)
      requires width * height < MODULUS
      ensures Valid() && Value() == Blank(width, height)
    {
      this.width := width;
      this.height := height;
      MulNonNegative(width, height);
      board := seq(width * height, _ => Dead);
    }

    /** `cell_at`: the cell at vector index row * width + col. */
    function CellAt(col: Usize, row: Usize): (c: Cell)
      reads this
      requires Index(width, col, row) < |board|
      ensures c == At(Value(), col, row)
    {
      board[row * width + col]
    }

    /** `set_at`: overwrites one element of the vector. */
    method SetAt(col: Usize, row: Usize, cell: Cell)
      requires Index(width, col, row) < |board|
      modifies this
      ensures Value() == Set(old(Value()), col, row, cell)
      ensures CellAt(col, row) == cell
    {
      board := board[row * width + col := cell];
    }

    /** `alive_neighbours`: counts the live cells among the lookups of the
        offsets (0, 0), (0, 1) and (1, 0). */
    method AliveNeighbours(col: Usize, row: Usize) returns (alive: Usize)
      requires NeighboursDefined(Value(), col, row)
      ensures alive == Neighbours(Value(), col, row)
      ensures alive <= 3
    {
      alive := 0;
      for deltaCol := 0 to OFFSET_END
        invariant alive == OuterCount(Value(), col, row, deltaCol)
      {
        for deltaRow := 0 to OFFSET_END
          invariant alive == OuterCount(Value(), col, row, deltaCol) + InnerCount(Value(), col, row, deltaCol, deltaRow)
        {
          if deltaRow != 1 || deltaCol != 1 {
            var c := NeighbourCoord(col, deltaCol, width);
            var r := NeighbourCoord(row, deltaRow, height);
            assert NeighbourIndex(Value(), col, row, deltaCol, deltaRow) < |board|;
            var cel := CellAt(r, c);
            if cel == Alive {
              alive := alive + 1;
            }
          }
        }
      }
      NeighboursAtMost3(Value(), col, row);
    }
  }

  /** Cell (c, r) has been visited once the loops of `next_board` (columns
      outside, rows inside) have reached (col, row). */
  predicate Visited(c: nat, r: nat, col: nat, row: nat)
  {
    c < col || (c == col && r < row)
  }

  /** The cells of the board `next_board` is filling once its loops have
      reached (col, row): visited cells hold their next state, the others
      the DEAD of `Board::new`. */
  ghost function PartlyStepped(g: Grid, col: nat, row: nat): (s: seq<Cell>)
    requires StepDefined(g)
    ensures |s| == |g.cells|
  {
    seq(|g.cells|, i requires 0 <= i < |g.cells| =>
      CellOfIndex(g, i);
      if Visited(ColOf(g.width, i), RowOf(g.width, i), col, row) then NextCell(g, ColOf(g.width, i), RowOf(g.width, i)) else Dead)
  }

  /** Visiting (col, row) writes its next state at its index and changes
      nothing else; before the visit that index holds DEAD. */
  lemma VisitCell(g: Grid, col: Usize, row: Usize)
    requires StepDefined(g) && col < g.width && row < g.height
    ensures Index(g.width, col, row) < |g.cells| && NeighboursDefined(g, col, row)
    ensures PartlyStepped(g, col, row)[Index(g.width, col, row)] == Dead
    ensures PartlyStepped(g, col, row + 1)
         == PartlyStepped(g, col, row)[Index(g.width, col, row) := NextCell(g, col, row)]
  {
    IndexInRange(g.width, g.height, col, row);
    IndexCoordinates(g.width, col, row);
    forall i | 0 <= i < |g.cells| && i != Index(g.width, col, row)
      ensures PartlyStepped(g, col, row + 1)[i] == PartlyStepped(g, col, row)[i]
    {
      VisitLeavesOthers(g, col, row, i);
    }
  }

  lemma VisitLeavesOthers(g: Grid, col: Usize, row: Usize, i: nat)
    requires StepDefined(g) && col < g.width && row < g.height
    requires i < |g.cells| && i != Index(g.width, col, row)
    ensures PartlyStepped(g, col, row + 1)[i] == PartlyStepped(g, col, row)[i]
  {
    CellOfIndex(g, i);
  }

  /** Finishing the rows of column col is starting column col + 1. */
  lemma ColumnDone(g: Grid, col: nat)
    requires StepDefined(g)
    ensures PartlyStepped(g, col, g.height) == PartlyStepped(g, col + 1, 0)
  {
    forall i | 0 <= i < |g.cells| ensures PartlyStepped(g, col, g.height)[i] == PartlyStepped(g, col + 1, 0)[i] {
      ColumnDoneAt(g, col, i);
    }
  }

  lemma ColumnDoneAt(g: Grid, col: nat, i: nat)
    requires StepDefined(g) && i < |g.cells|
    ensures PartlyStepped(g, col, g.height)[i] == PartlyStepped(g, col + 1, 0)[i]
  {
    CellOfIndex(g, i);
  }

  /** Once every column is done, the board is the next board. */
  lemma AllVisited(g: Grid)
    requires StepDefined(g)
    ensures PartlyStepped(g, g.width, 0) == Step(g).cells
  {
    forall i | 0 <= i < |g.cells| ensures PartlyStepped(g, g.width, 0)[i] == Step(g).cells[i] {
      AllVisitedAt(g, i);
    }
  }

  lemma AllVisitedAt(g: Grid, i: nat)
    requires StepDefined(g) && i < |g.cells|
    ensures PartlyStepped(g, g.width, 0)[i] == Step(g).cells[i]
  {
    CellOfIndex(g, i);
  }

  /** `next_board`: fills a fresh board cell by cell from the old one. */
  method NextBoard(board: Board) returns (n: Board)
    requires board.Valid() && StepDefined(board.Value())
    ensures fresh(n) && n.Valid() && unchanged(board)
    ensures n.Value() == Step(board.Value())
  {
    ghost var g := board.Value();
    n := new Board(board.width, board.height);
    for col := 0 to board.width
      invariant n.width == g.width && n.height == g.height
      invariant n.board == PartlyStepped(g, col, 0)
    {
      for row := 0 to board.height
        invariant n.width == g.width && n.height == g.height
        invariant n.board == PartlyStepped(g, col, row)
      {
        VisitCell(g, col, row);
        var nbors := board.AliveNeighbours(col, row);
        var cell := board.CellAt(col, row);
        if cell == Alive && (nbors == 2 || nbors == 3) {
          n.SetAt(col, row, Alive);
        } else if cell == Dead && nbors == 3 {
          n.SetAt(col, row, Dead);
        }
      }
      ColumnDone(g, col);
    }
    AllVisited(g);
  }
}
