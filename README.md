# Game of Life board, modelled in Dafny

This project models the Game of Life board in `main.rs`, exactly as the code is written:

- the `Cell` enum;
- the `Board` struct and its methods `new`, `cell_at`, `set_at` and `alive_neighbours`;
- the free function `next_board`.

`Board` is a Dafny class with the same three fields: `width`, `height` and the row-major vector `board`. Its methods update the object in place. `next_board` is a method whose two nested loops fill a fresh board. Each method is proved against specification functions on an immutable `Grid` value, and the lemmas about the board are stated over those functions.

`usize` is the subset type `Wrapping.Usize` (0 to 2^64−1). `wrapping_add` and `wrapping_sub` are written out with their wrap-around.

The code differs from the usual Life rules, and the model keeps those differences:

- **Three neighbours, not eight.** Both offset loops of `alive_neighbours` run over `0..2`, and only the pair (1, 1) is skipped. The examined neighbours are therefore at offsets (−1, −1), (−1, 0) and (0, −1).
- **Swapped lookup.** The neighbour is read with `cell_at(r, c)`, so the vector index is `c * width + r`.
- **Wrap at zero.** At coordinate 0 the neighbour coordinate is `(2^64 − 1) % n`, not `n − 1`. On the 10 × 10 board that is 5.
- **No births.** The arm for a dead cell with three neighbours writes `DEAD`, so no cell ever comes to life.
- **Bounds.** The swapped lookup stays inside the vector exactly when the board is no wider than it is tall (`Life.StepDefinedIffNarrow`). `next_board` therefore requires every lookup to be in bounds. A board with width or height 0 needs nothing, because its loops never run.

Modules:

- `Wrapping` (wrapping.dfy): `usize` and its wrapping arithmetic.
- `Arithmetic` (arithmetic.dfy): small facts about multiplication.
- `Life` (life.dfy): the board, its specification functions, the class and `next_board`.

## Model

| member | source | states |
|---|---|---|
| Wrapping.WrappingAdd | main.rs:36-37 | `wrapping_add` is the exact sum below 2^64 and the sum minus 2^64 at or above it |
| Wrapping.WrappingSub | main.rs:36-37 | `wrapping_sub` is the exact difference when it is non-negative, and the difference plus 2^64 when it underflows |
| Life.Blank | main.rs:15-21 | `Board::new` keeps the given width and height and holds width*height cells, all dead |
| Life.Board.constructor | main.rs:15-21 | the new object's value is the all-dead board of the given dimensions and satisfies the class invariant |
| Life.Board.CellAt | main.rs:23-25 | `cell_at(col, row)` returns the cell at vector index row*width+col |
| Life.Set | main.rs:27-29 | after `set_at` the dimensions and vector length are unchanged, the written cell reads back, and every other index is unchanged |
| Life.Board.SetAt | main.rs:27-29 | the object's new value is the old one with that one cell written, and `cell_at` at the same coordinates returns the written cell |
| Life.SetAtOtherCell | main.rs:23-29 | writing one in-range cell leaves every other in-range cell as it was |
| Life.IndexCoordinates | main.rs:24 | the index row*width+col determines col and row for col < width, so distinct cells have distinct indices |
| Life.IndexOfCoordinates | main.rs:24 | every vector index is row*width+col for some column below width |
| Life.IndexInRange | main.rs:24 | every in-range coordinate pair indexes inside the width*height vector |
| Life.CoordinatesInRange | main.rs:51-52 | every vector index belongs to a row below height, so the column-by-row loops of `next_board` cover the whole vector |
| Life.CoordinatesAreRemainderAndQuotient | main.rs:24 | the column and row of an index are the index mod width and the index divided by width |
| Life.ColOf | main.rs:24 | the column recovered from an index is below the width |
| Life.NeighbourCoord | main.rs:36-37 | a neighbour coordinate is below n; away from 0 it is (x+d−1) mod n, and at 0 it is (2^64−1) mod n |
| Life.NeighbourCoordNoWrap | main.rs:36-37 | while x+d is between 1 and n the coordinate is x+d−1, with no wrap |
| Life.InnerCount | main.rs:34-42 | the inner loop's partial count is at most the number of offsets visited |
| Life.OuterCount | main.rs:33-44 | the outer loop's partial count is at most twice the number of columns of offsets visited |
| Life.NeighboursAreThreeCells | main.rs:31-46 | the count is the number of live cells among the three lookups at offsets (0,0), (0,1) and (1,0), each read with column and row swapped |
| Life.NeighboursAtMost3 | main.rs:31-46 | `alive_neighbours` never returns more than 3 |
| Life.Board.AliveNeighbours | main.rs:31-46 | the loops return the specified neighbour count, which is at most 3 |
| Life.StepCell | main.rs:53-63 | a cell is alive on the next board iff it was alive with 2 or 3 live neighbours |
| Life.Step | main.rs:49-50 | the next board has the dimensions of the board and a well-formed vector |
| Life.StepNoBirths | main.rs:58-59 | no cell is born: the live cells of the next board are a subset of those of the board |
| Life.AllDeadStaysDead | main.rs:58-59 | an all-dead board steps to an all-dead board |
| Life.SwappedIndexInRange | main.rs:38 | the swapped index c*width+r is inside the vector when width <= height |
| Life.NarrowBoardStepDefined | main.rs:36-38 | on a board no wider than it is tall, every lookup of every cell is in bounds |
| Life.WideBoardLookupOutOfBounds | main.rs:36-38 | on a board wider than it is tall, one lookup from the top row's last column lands past the end of the vector |
| Life.LastColumnPastEnd | main.rs:24 | with height < width, the swapped index of column width−1 is at least width*height |
| Life.StepDefinedIffNarrow | main.rs:36-38 | on a non-empty board, every lookup is in bounds iff width <= height |
| Life.LoneCornerCellDies | main.rs:70-73 | the 10 × 10 board with only (0, 0) alive steps to the all-dead board |
| Life.NextBoard | main.rs:49-68 | `next_board` returns a fresh board whose value is the specified next board, and its argument is unchanged |
| Life.VisitCell | main.rs:53-63 | before its visit a cell of the new board is still the DEAD of `Board::new`; the visit writes its next state there and nothing else |
| Life.ColumnDone | main.rs:51-52 | finishing a column equals starting the next column |
| Life.AllVisited | main.rs:51-52 | once every column is visited, the partly stepped vector is the next board's vector |

## Left out

- `main`'s `println!` of the board's `Debug` form is not modelled; the model has no I/O.
- The `Box` allocation that `cell_at` wraps its result in is not modelled: it has no observable effect, so the model returns the cell by value.
- Panics are expressed as preconditions. These are: an index outside the vector, `% 0`, and the overflow of `width*height` in `Board::new` (a debug-mode panic). A method whose precondition fails is not modelled as panicking.
- Release-mode wrap-around of `row * width + col` is not modelled. The model treats that expression as exact, which debug builds enforce by panicking.
- The precondition of `next_board` is that every lookup is in bounds, not that width <= height. The two are equivalent for non-empty boards (`Life.StepDefinedIffNarrow`), and the weaker form also admits the empty boards that do not panic.
- Allocation failure of the cell vector is not modelled.
- `next_board` takes its argument by value and drops it. The model passes a reference and proves the argument unchanged.
