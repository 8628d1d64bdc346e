# Conway's Game of Life: a verified model of the simulation engine

This project models, in Dafny, the core of a terminal Game of Life written in Rust:

- the grid of cells: rows of unsigned cell values, where 0 is dead, 1 is alive and anything else is a corrupted cell;
- the per-cell transition `compute_cell_state`: it counts the live neighbours in the 3x3 Moore neighbourhood, clipped at the grid edges with no wrap-around, and applies the B3/S23 rule (survive on 2 or 3, be born on exactly 3);
- `next_iteration`: it snapshots the grid, rewrites every cell in place from the snapshot, and counts one more generation;
- the board bookkeeping of `src/helpers.rs`: `count_alive_cells`, the line parsing and board construction of `read_board_from_file`, and the random `initalize_board`.

Layout:

- `grid.dfy`, module `Grid`: the cell grid (`Cells = seq<seq<nat>>`) and its shape predicates. It also holds `InitializeBoard`. That function appears twice in the source, identically, at `src/main.rs:73-90` and `src/helpers.rs:32-49`, so it is modelled once.
- `life.dfy`, module `Life` (`src/main.rs`):
  - the rule `Rule` and the neighbour count `LiveNeighbours`, both specification functions;
  - the method `ComputeCellState`, whose nested offset loops are proved against them;
  - the next generation `NextGrid`;
  - the class `Board`, whose `NextIteration` rewrites `state` cell by cell from a snapshot and is proved to leave exactly `NextGrid(old(state))`;
  - lemmas about clipping, locality, symmetry, and the still-life and oscillator patterns.
- `helpers.dfy`, module `Helpers` (`src/helpers.rs`):
  - the live-cell count, with its nested-loop method `CountAliveCells`;
  - `to_digit(10)` as `ToDigit`;
  - the line parser `ParseLines`, checked against `ParseGrid`;
  - the loaded `Board` class and `ReadBoard`.

Inside the modelled functions every panic becomes either a failure value or a precondition:

- **Failure values.** The panics of `compute_cell_state` (src/main.rs:206-207), `count_alive_cells` (src/helpers.rs:143) and the line parsing of `read_board_from_file` (src/helpers.rs:76-79, and `board[0]` on an empty file at src/helpers.rs:85) become `Option.None` or `Result.Err`.
- **Preconditions.** Two panics can only be reached by a caller that breaks the board's invariant. One is a grid not of the board's own shape. The other is a cell outside {0, 1} passed to `next_iteration`. These become preconditions, and the model proves that the program's own callers always meet them.
- **Not modelled.** The panics of file opening and line reading, of the `try_into().unwrap()` conversions, of `render` and of `clear_terminal_screen` belong to operations that are not modelled; "Left out" lists them.

Three behaviours of the code are easy to misread, and the model keeps them as written:

- **Parsing accepts any decimal digit.** The loader's only statement that cells must be 0 or 1 is the message of its `expect` at src/helpers.rs:78. The conversion it guards is `to_digit(10)`, which accepts every digit `0`–`9`. A digit `2`–`9` therefore passes parsing. It fails only afterwards, in `count_alive_cells` (src/helpers.rs:143). In the model, `ReadBoard` returns `Err(InvalidCell)` for it, and `ParsedBinaryIff` states the exact condition.
- **Ragged rows are kept.** The loader never compares row lengths (src/helpers.rs:65-87). It takes the width from the first line alone (src/helpers.rs:85). `ParseGrid` keeps every row at its own length in the same way.
- **No live-cell count in `main.rs`.** The `Board` of src/helpers.rs has an `alive_cells` field (src/helpers.rs:13), set once when a file is loaded (src/helpers.rs:97). The `Board` of `src/main.rs` has no such field, `next_iteration` never counts, and the run loop (src/main.rs:38-51) never ends. `Life.Board` follows `src/main.rs` and has no count either.

## Model

| member | source | states |
|---|---|---|
| `Grid.InitializeBoard` | src/main.rs:73-90 | returns `height` rows of exactly `width` cells each, every cell 0 or 1, whatever value each random draw takes |
| `Life.Rule` | src/main.rs:192-208 | fails exactly when the centre cell is outside {0, 1}; otherwise the result is 0 or 1. A live cell stays alive iff it has 2 or 3 live neighbours. A dead cell becomes alive iff it has exactly 3. |
| `Life.ComputeCellState` | src/main.rs:150-209 | the nested offset loops return the rule applied to the snapshot's centre cell and its live-neighbour count; `None` (the panic) exactly when the centre is neither 0 nor 1 |
| `Life.LiveNeighboursUnfold` | src/main.rs:160-190 | the count is the sum over the eight off-centre offsets; the centre offset (0, 0) never contributes |
| `Life.LiveNeighboursBound` | src/main.rs:169-177 | the count is at most the number of in-grid cells in the 3x3 window minus one: 3 at a corner, 5 on an edge, never more than 8 |
| `Life.LiveNeighboursAllAlive` | src/main.rs:163-190 | on an all-alive grid the count equals that clipped window size minus one, so the bound is exact |
| `Life.LiveNeighboursAllDead` | src/main.rs:184-188 | on an all-dead grid every count is 0 |
| `Life.LiveNeighboursLocal` | src/main.rs:166-184 | two grids that agree on the in-grid cells of the window around (row, col), the centre excepted, give the same count: no wrap-around and no far cell is read |
| `Life.LiveNeighboursIgnoresCentre` | src/main.rs:179-182 | changing the cell itself never changes its own neighbour count |
| `Life.NextGrid` | src/main.rs:133-145 | the next generation keeps `height` rows of `width` cells and holds only 0s and 1s |
| `Life.NextGridFollowsRule` | src/main.rs:135-143 | each cell of the next generation is 1 iff it was 1 with 2 or 3 live neighbours, or 0 with exactly 3, all counted in the previous generation |
| `Life.Iterate` | src/main.rs:38-51 | every generation the run loop reaches is still a `height` x `width` grid of 0s and 1s, so `next_iteration` can never hit its invalid-cell panic |
| `Life.LiveNeighboursTranspose` | src/main.rs:163-190 | mirroring the grid mirrors every neighbour count: rows and columns are scanned alike |
| `Life.NextGridTranspose` | src/main.rs:133-145 | stepping the mirrored grid gives the mirror of the stepped grid |
| `Life.SingleCellDies` | src/main.rs:192-205 | a 1x1 board always becomes `[[0]]` |
| `Life.AllDeadStaysDead` | src/main.rs:200-205 | an all-dead grid is unchanged by a step |
| `Life.LoneCornerDies` | src/main.rs:169-177 | a live cell alone in the corner (0, 0) of a grid of any size dies |
| `Life.BlockIsStill` | src/main.rs:128-148 | on every dead board of at least 4x4, the 2x2 block at rows and columns 1-2 is a still life |
| `Life.BlinkerRowTurns` | src/main.rs:128-148 | the horizontal blinker in a dead 5x5 field becomes the vertical one |
| `Life.BlinkerColumnTurns` | src/main.rs:128-148 | the vertical blinker becomes the horizontal one again |
| `Life.AlternatesWithPeriodTwo` | src/main.rs:38-51 | two grids that step into each other alternate through every pass of the run loop |
| `Life.BlinkerOscillates` | src/main.rs:38-51 | after n generations the blinker is horizontal for even n and vertical for odd n |
| `Life.Board.constructor` | src/main.rs:30-35 | a new board has the given width and height, a valid random grid of that shape, and generation 1 |
| `Life.Board.NextIteration` | src/main.rs:128-148 | afterwards `state` is exactly `NextGrid` of the pre-call snapshot, so writes made earlier in the scan never feed later cells; width and height are unchanged and `generation` is one more |
| `Life.Board.Run` | src/main.rs:38-51 | n passes of the loop leave `state` equal to `Iterate(old(state), n)` and `generation` increased by exactly n |
| `Helpers.CountAliveCells` | src/helpers.rs:135-148 | returns a count exactly when every cell is 0 or 1 (otherwise `None`, the panic); the count is the number of cells equal to 1 |
| `Helpers.AliveCountIsMultiplicity` | src/helpers.rs:135-148 | the live-cell count equals the multiplicity of 1 in the multiset of all cells |
| `Helpers.AliveCountBound` | src/helpers.rs:140-144 | the live-cell count never exceeds the number of cells |
| `Helpers.FlattenRect` | src/helpers.rs:138-139 | a `height` x `width` grid has `width * height` cells |
| `Helpers.AliveCountAllDead` | src/helpers.rs:141 | an all-zero grid counts 0 |
| `Helpers.AliveCountAllAlive` | src/helpers.rs:142 | an all-one grid counts every cell |
| `Helpers.ToDigit` | src/helpers.rs:76-79 | succeeds exactly on the ASCII digits '0'..'9', with a value below 10 that maps back to the same character |
| `Helpers.ParseGrid` | src/helpers.rs:65-83 | one row per line, each as long as its line (ragged rows kept). Each cell is the value of its digit character, so at most 9, and it is 1 (or 0) exactly where the character is '1' (or '0'). |
| `Helpers.ParsedBinaryIff` | src/helpers.rs:76-79 | the parsed grid holds only 0s and 1s iff the text holds only '0's and '1's, so a digit 2–9 parses but is refused by the count |
| `Helpers.AliveCountParsed` | src/helpers.rs:97 | the live cells of a parsed grid are exactly the '1' characters of the text |
| `Helpers.SampleFile` | src/helpers.rs:65-97 | the lines 010 / 101 / 010 parse to a 3x3 grid with 4 live cells |
| `Helpers.ParseLines` | src/helpers.rs:62-83 | succeeds exactly when every character of every line is a decimal digit, returning `ParseGrid` of the lines; fails with `NotADigit` otherwise |
| `Helpers.Board.constructor` | src/helpers.rs:89-95 | the board literal: given width, height and state, generation 1, live-cell count 0 |
| `Helpers.ReadBoard` | src/helpers.rs:51-99 | fails on a non-digit (`NotADigit`), then on zero lines (`NoLines`), then on a digit other than 0/1 (`InvalidCell`), in that order. On success: `state` is the parsed grid, `width` is the first line's length, `height` is the number of lines, `generation` is 1 and `aliveCells` is the live-cell count of `state`. |

## Left out

- Command-line parsing with `clap` (`Cli`, `src/main.rs:7-16`, `src/helpers.rs:16-30`) is a foreign library, so it is not modelled.
- Rendering (`render`, `print_cell`) only prints coloured blocks, so it is not modelled. That includes `render`'s own panic on a cell outside {0, 1}.
- `clear_terminal_screen` spawns an external process, so it is not modelled.
- The one-second `thread::sleep` in the run loop is not modelled.
- The run loop of `main` never terminates. `Life.Board.Run` models only its first n passes, without the render, sleep and clear steps in between.
- `Grid.InitializeBoard`: `rand::thread_rng()` is modelled as a free choice of 0 or 1 per cell. The contract does not state that the draws are independent or uniform.
- Opening and reading the board file are not modelled (`File::open`, `BufReader::lines` and their panics). `Helpers.ReadBoard` starts from the sequence of lines.
- Integer widths are not modelled. Cells are `nat` rather than `u32`. Counts, widths and heights are unbounded rather than `u32`. The `try_into().unwrap()` conversions and the `as i32` / `as usize` casts are taken as exact.
- The `u64` generation counter cannot overflow in the model. `*generation += 1` would panic (debug build) or wrap (release build) only after 2^64 steps.
- `Life.ComputeCellState` requires the snapshot to be exactly `height` rows of `width` cells. The source only reads rows below `height` and columns below `width`, so it would also run on a larger grid, and it panics on an index out of range on a smaller one. Every caller passes the board's own dimensions.
- `Life.Board.NextIteration` requires every cell to be 0 or 1 (`Valid()`). On any other value the source panics part-way through the scan and the process ends. The model does not describe the half-rewritten grid at that moment. `Life.Iterate` and the constructor show that the program never reaches that case.
- The in-place `Vec<Vec<u32>>` grid is modelled as a `seq<seq<nat>>` field that `NextIteration` reassigns one cell at a time. Aliasing between the board and its snapshot cannot arise, because `to_owned` copies the grid.
