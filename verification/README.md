# Game of Life engine, modelled in Dafny

This project models the engine of a Rust implementation of Conway's Game of Life
(`src/gol.rs`). The engine keeps one fixed-size board of `CellState`s (`Alive` or
`Dead`), indexed as `board[y][x]` (x is the column, y the row). It advances the board
one generation at a time. Each cell's next state comes from the canonical rule
(survive on 2 or 3 live neighbours, be born on exactly 3) applied to its live Moore
neighbours. The border clips: cells off the board do not exist, and nothing wraps
around.

Layout:

- `gol.dfy`, module `Gol`, holds the engine:
  - `CellState` and its one-character rendering;
  - the rule `UpdateCell`;
  - the reference neighbour count `LiveNeighbours`, an explicit sum over the eight
    offsets, where off-board cells count as dead;
  - the next-generation function `Step`, which reads nothing but the board it is given;
  - the class `GameOfLife`, holding the board and the imperative operations.
- `gol_tests.dfy`, module `GolTests`, holds the unit tests of `src/gol.rs`:
  - as lemmas about `Step`, generalised to any board size where the pattern allows it;
  - as client methods that create engines, call `Update` and compare engines with `Eq`,
    as the Rust tests do.

Modelling choices:

- Rust's `[[CellState; WIDTH]; HEIGHT]` is a `Copy` value type, so the board is a
  `seq<seq<CellState>>` field.
  - `new_board[y][x] = v` becomes a sequence update of a local board.
  - `self.board = new_board` becomes one assignment of the field.
- The const generics `WIDTH` and `HEIGHT` become the constant fields `W` and `H`.
  - Any size is allowed, as in Rust.
  - Only the per-coordinate operations need `x < W` and `y < H`.
- `count_neighbours` is modelled in two parts:
  - the list it builds, with `y_permut`, `extend` and `retain`, is the function
    `NeighbourIndexes`;
  - the filter-and-count over that list is the loop of the method `CountNeighbours`.
    Its result is proved equal to the reference count `LiveNeighbours`.
- `Update` fills a fresh board in nested loops while `board` stays untouched, then
  swaps the fresh board in. Its postcondition ties every new cell to the old board
  only.
- Because `Update` is specified by the function `Step`, two engines with equal boards
  that are stepped the same number of times stay equal.

## Model

| member | source | states |
|---|---|---|
| `Gol.CellState.PrettyPrint` | src/gol.rs:10-15 | The rendering is 'A' exactly for Alive and 'D' exactly for Dead. |
| `Gol.UpdateCell` | src/gol.rs:18-24 | The next state is Alive iff the cell is Alive with 2 or 3 live neighbours, or Dead with exactly 3. Every other (state, count) pair, for any count, gives Dead. |
| `Gol.LiveNeighbours` | src/gol.rs:77-93 | The reference count of live on-board Moore neighbours is at most 8. |
| `Gol.Retain` | src/gol.rs:87 | `retain(|e| e != p)` keeps exactly the elements different from `p`, every one of them as often as it occurs, and drops every copy of `p`. A list without repetitions stays without repetitions. |
| `Gol.GameOfLife.New` | src/gol.rs:50-54 | A new engine has the requested dimensions and every cell Dead. |
| `Gol.GameOfLife.FromBoard` | src/gol.rs:56-58 | The engine holds exactly the caller's full W-by-H board. |
| `Gol.GameOfLife.Get` | src/gol.rs:34-37 | Indexing by (x, y) reads row y, column x. |
| `Gol.GameOfLife.Set` | src/gol.rs:43-46 | Writing through `index_mut((x, y))` makes cell (x, y) the new state and leaves every other cell and the dimensions unchanged. |
| `Gol.GameOfLife.YPermut` | src/gol.rs:66-75 | The list starts with (x, y) and holds exactly the on-board cells of column x in rows y-1..y+1, each once. |
| `Gol.GameOfLife.NeighbourIndexes` | src/gol.rs:78-87 | The guards and `retain` produce a list of exactly the on-board Moore neighbours of (x, y), centre excluded, without duplicates. |
| `Gol.GameOfLife.NeighbourColumns` | src/gol.rs:80-86 | The three concatenated columns are pairwise disjoint and together cover the clipped 3-by-3 block around (x, y). |
| `Gol.GameOfLife.NeighbourIndexesCount` | src/gol.rs:77-93 | Counting the live cells in that list gives the reference count `LiveNeighbours`, for any board of the engine's dimensions. |
| `Gol.GameOfLife.CountNeighbours` | src/gol.rs:77-93 | `count_neighbours(x, y)` returns exactly the number of live on-board Moore neighbours of (x, y), at most 8. |
| `Gol.GameOfLife.Update` | src/gol.rs:95-103 | After `update`, every cell (x, y) is `update_cell(old[y][x], live neighbours of (x, y) in old)`. The old board is the pre-step snapshot, so no cell reads a partially updated board. The dimensions and the board invariant are kept. |
| `Gol.GameOfLife.Eq` | src/gol.rs:106-117 | `eq` returns true iff every coordinate holds the same state in both engines, that is, iff the two boards are equal. |
| `Gol.EmptyIsFixedPoint` | src/gol.rs:127-133 | For any dimensions, stepping the all-Dead board yields the all-Dead board. |
| `GolTests.EmptyStaysEmpty` | src/gol.rs:127-133 | The all-Dead board stays all-Dead after any number of generations. |
| `GolTests.AllAliveNeighbours` | src/gol.rs:136-166 | On an all-Alive board of at least 2-by-2, a corner has 3 live neighbours, another border cell 5 and an interior cell 8. |
| `GolTests.AllAliveStep` | src/gol.rs:148-161 | For any board of at least 2-by-2, an all-Alive board steps to one that is Alive exactly at its four corners. |
| `GolTests.CornersStep` | src/gol.rs:159-165 | For any board of at least 3-by-3, the corners-only board steps to the all-Dead board. |
| `GolTests.Overcrowding` | src/gol.rs:136-166 | The full 6-by-6 board of the test steps to the test's corners board. The two boards differ, and the corners board steps to the empty board. |
| `GolTests.BlinkerStep` | src/gol.rs:169-183 | The 3-by-3 vertical blinker steps to the horizontal one, and the horizontal one steps back. |
| `GolTests.BlinkerPeriod` | src/gol.rs:169-183 | The blinker has period 2: after 2n generations it is vertical, after 2n+1 horizontal. |
| `GolTests.BlockStep` | src/gol.rs:186-199 | The centred 2-by-2 block on a 4-by-4 board is unchanged by one generation. |
| `GolTests.BlockIsStill` | src/gol.rs:186-199 | The block is unchanged after any number of generations. |
| `GolTests.TestEmpty` | src/gol.rs:127-133 | A fresh 6-by-6 engine equals, by `Eq`, a fresh engine after one `Update`. |
| `GolTests.TestOvercrowding` | src/gol.rs:136-166 | The all-Alive 6-by-6 engine after one `Update` equals the corners engine and differs from the start engine. After a second `Update` it equals a fresh (all-Dead) engine. |
| `GolTests.TestRepeat` | src/gol.rs:169-183 | An engine started on the vertical blinker equals the vertical engine before any `Update` and after 2, and equals the horizontal engine after 1 and 3. |
| `GolTests.TestPersist` | src/gol.rs:186-199 | An engine started on the block equals its start engine before any `Update` and after each of 3 `Update`s. |

## Left out

- `src/main.rs` is startup code that seeds a 5-by-5 board and prints it. It is I/O around the engine and is not part of this model.
- `GameOfLife::pretty_print` (src/gol.rs:60-64) only writes the board with `println!`. It is console output and is not modelled. The per-cell rendering it uses is modelled as `CellState.PrettyPrint`.
- The `Index`/`IndexMut` operator overloading becomes the plain members `Get` and `Set`.
- The derived `Debug`, `Clone` and `Copy` are not modelled. A Rust copy of an engine (`let mut update_gol = start_gol;`) becomes a second engine built from the same board.
- Out-of-range indexing (`x >= W` or `y >= H`) panics in the source. Here it is a precondition of `Get`, `Set` and `CountNeighbours`.
- `YPermut` and `NeighbourIndexes` do not index the board, and in the source they accept any coordinates: `y_permut(x, H)` returns `[(x, H), (x, H - 1)]` when H is at least 1. They require in-range coordinates here only because their one caller, `CountNeighbours`, does. `update` never calls them out of range.
- CountNeighbours: a few out-of-range calls are excluded by its precondition, and the model does not say what they do. One example is `count_neighbours(W, 0)` on a board one row high. In the source such calls return a count instead of panicking, and no caller in the source makes them.
- `usize` arithmetic cannot overflow on any path the model admits (counts are at most 8, and `x + 1`, `y + 1` are used only below `W` and `H`), so integers are unbounded `nat`s.
