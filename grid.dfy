/** The cell grid shared by the simulation (src/main.rs) and the board
    helpers (src/helpers.rs): a vector of rows, each a vector of unsigned
    cell values, indexed as grid[row][column]. 0 is a dead cell, 1 a live
    one; any other value is a corrupted cell that the program panics on. */
module Grid {

  datatype Option<T> = None | Some(value: T)

  /** A board state: rows of non-negative (u32) cell values. */
  type Cells = seq<seq<nat>>

  /** `height` rows, each of exactly `width` cells. */
  predicate IsRect(g: Cells, width: nat, height: nat)
  {
    |g| == height && forall r :: 0 <= r < |g| ==> |g[r]| == width
  }

  /** Every cell is 0 (dead) or 1 (alive). Rows may differ in length. */
  predicate IsBinary(g: Cells)
  {
    forall r, c :: 0 <= r < |g| && 0 <= c < |g[r]| ==> g[r][c] <= 1
  }

  /** Every cell is 0. */
  predicate AllDead(g: Cells)
  {
    forall r, c :: 0 <= r < |g| && 0 <= c < |g[r]| ==> g[r][c] == 0
  }

  /** Every cell is 1. */
  predicate AllAlive(g: Cells)
  {
    forall r, c :: 0 <= r < |g| && 0 <= c < |g[r]| ==> g[r][c] == 1
  }

  /** Builds a `height` x `width` grid cell by cell, each cell an arbitrary
      choice of 0 or 1 (the source draws it from a random generator); the
      outer loop pushes rows, the inner loop pushes cells. */
  method InitializeBoard(width: nat, height: nat) returns (board: Cells)
    ensures IsRect(board, width, height)
    ensures IsBinary(board)
  {
    board := [];
    for i := 0 to height
      invariant IsRect(board, width, i)
      invariant IsBinary(board)
    {
      var row: seq<nat> := [];
      for j := 0 to width
        invariant |row| == j
        invariant forall k :: 0 <= k < j ==> row[k] <= 1
      {
        var cellState: nat;
        if * { cellState := 0; } else { cellState := 1; }
        row := row + [cellState];
      }
      board := board + [row];
    }
  }
}
