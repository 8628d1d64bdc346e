/** The simulation engine of src/main.rs: the B3/S23 rule, the neighbour
    count over the clipped (non-wrapping) Moore neighbourhood, the per-cell
    `compute_cell_state`, and the board that `next_iteration` rewrites in
    place from a snapshot of itself. */
module Life {
  import opened Grid

  /** Row and column offsets the neighbour scan walks through, in order. */
  const NeighbourPositions: seq<int> := [-1, 0, 1]

  /** 1 when the position at offset (dr, dc) from (row, col) lies inside
      [0, height) x [0, width), is not (row, col) itself and holds a live
      cell; 0 otherwise. Values other than 1 count as not alive. */
  function Neighbour(g: Cells, width: nat, height: nat, row: nat, col: nat, dr: int, dc: int): nat
    requires IsRect(g, width, height)
  {
    var nr, nc := row + dr, col + dc;
    if nr < 0 || nc < 0 then 0
    else if nr >= height || nc >= width then 0
    else if dr == 0 && dc == 0 then 0
    else if g[nr][nc] == 1 then 1
    else 0
  }

  /** Live neighbours seen at row offset `dr` after the first `j` column offsets. */
  function CountColumns(g: Cells, width: nat, height: nat, row: nat, col: nat, dr: int, j: nat): nat
    requires IsRect(g, width, height) && j <= |NeighbourPositions|
  {
    if j == 0 then 0
    else CountColumns(g, width, height, row, col, dr, j - 1)
         + Neighbour(g, width, height, row, col, dr, NeighbourPositions[j - 1])
  }

  /** Live neighbours seen after the first `i` row offsets. */
  function CountRows(g: Cells, width: nat, height: nat, row: nat, col: nat, i: nat): nat
    requires IsRect(g, width, height) && i <= |NeighbourPositions|
  {
    if i == 0 then 0
    else CountRows(g, width, height, row, col, i - 1)
         + CountColumns(g, width, height, row, col, NeighbourPositions[i - 1], |NeighbourPositions|)
  }

  /** Number of live cells among the (at most eight) neighbours of (row, col). */
  function LiveNeighbours(g: Cells, width: nat, height: nat, row: nat, col: nat): nat
    requires IsRect(g, width, height)
  {
    CountRows(g, width, height, row, col, |NeighbourPositions|)
  }

  /** How many of i - 1, i, i + 1 lie in [0, n), for i < n. */
  function Span(i: nat, n: nat): nat
  {
    (if i > 0 then 1 else 0) + 1 + (if i + 1 < n then 1 else 0)
  }

  /** The transition of one cell: survive on 2 or 3 live neighbours, be born
      on exactly 3. None stands for the panic on a cell value outside {0, 1}. */
  function Rule(cell: nat, aliveNeighbours: nat): (next: Option<nat>)
    ensures next.Some? <==> cell <= 1
    ensures next.Some? ==> next.value <= 1
    ensures cell == 1 ==> (next == Some(1) <==> aliveNeighbours == 2 || aliveNeighbours == 3)
    ensures cell == 0 ==> (next == Some(1) <==> aliveNeighbours == 3)
  {
    if cell == 1 then
      if aliveNeighbours <= 1 then Some(0)
      else if 2 <= aliveNeighbours <= 3 then Some(1)
      else Some(0)
    else if cell == 0 then
      if aliveNeighbours == 3 then Some(1) else Some(0)
    else None
  }

  /** The next generation: every cell computed from the given (previous)
      generation only. */
  function NextGrid(g: Cells, width: nat, height: nat): (next: Cells)
    requires IsRect(g, width, height) && IsBinary(g)
    ensures IsRect(next, width, height) && IsBinary(next)
  {
    seq(height, r requires 0 <= r < height =>
      seq(width, c requires 0 <= c < width =>
        Rule(g[r][c], LiveNeighbours(g, width, height, r, c)).value))
  }

  /** Each cell of the next generation is alive exactly when it was alive
      with 2 or 3 live neighbours, or dead with exactly 3. */
  lemma NextGridFollowsRule(g: Cells, width: nat, height: nat, r: nat, c: nat)
    requires IsRect(g, width, height) && IsBinary(g) && r < height && c < width
    ensures NextGrid(g, width, height)[r][c] == 1 <==>
      var n := LiveNeighbours(g, width, height, r, c);
      (g[r][c] == 1 && (n == 2 || n == 3)) || (g[r][c] == 0 && n == 3)
  {
  }

  /** The grid after `n` passes of the run loop. */
  function Iterate(g: Cells, width: nat, height: nat, n: nat): (last: Cells)
    requires IsRect(g, width, height) && IsBinary(g)
    ensures IsRect(last, width, height) && IsBinary(last)
  {
    if n == 0 then g else NextGrid(Iterate(g, width, height, n - 1), width, height)
  }

  /** The neighbour count is the sum of the eight off-centre positions. */
  lemma LiveNeighboursUnfold(g: Cells, width: nat, height: nat, row: nat, col: nat)
    requires IsRect(g, width, height)
    ensures LiveNeighbours(g, width, height, row, col) ==
      Neighbour(g, width, height, row, col, -1, -1) + Neighbour(g, width, height, row, col, -1, 0)
      + Neighbour(g, width, height, row, col, -1, 1) + Neighbour(g, width, height, row, col, 0, -1)
      + Neighbour(g, width, height, row, col, 0, 1) + Neighbour(g, width, height, row, col, 1, -1)
      + Neighbour(g, width, height, row, col, 1, 0) + Neighbour(g, width, height, row, col, 1, 1)
  {
    assert NeighbourPositions[0] == -1 && NeighbourPositions[1] == 0 && NeighbourPositions[2] == 1;
    assert Neighbour(g, width, height, row, col, 0, 0) == 0;
    forall dr
      ensures CountColumns(g, width, height, row, col, dr, 3) ==
        Neighbour(g, width, height, row, col, dr, -1) + Neighbour(g, width, height, row, col, dr, 0)
        + Neighbour(g, width, height, row, col, dr, 1)
    {
      calc {
        CountColumns(g, width, height, row, col, dr, 3);
        CountColumns(g, width, height, row, col, dr, 2) + Neighbour(g, width, height, row, col, dr, 1);
        CountColumns(g, width, height, row, col, dr, 1) + Neighbour(g, width, height, row, col, dr, 0)
          + Neighbour(g, width, height, row, col, dr, 1);
        CountColumns(g, width, height, row, col, dr, 0) + Neighbour(g, width, height, row, col, dr, -1)
          + Neighbour(g, width, height, row, col, dr, 0) + Neighbour(g, width, height, row, col, dr, 1);
      }
    }
    calc {
      LiveNeighbours(g, width, height, row, col);
      CountRows(g, width, height, row, col, 2) + CountColumns(g, width, height, row, col, 1, 3);
      CountRows(g, width, height, row, col, 1) + CountColumns(g, width, height, row, col, 0, 3)
        + CountColumns(g, width, height, row, col, 1, 3);
      CountRows(g, width, height, row, col, 0) + CountColumns(g, width, height, row, col, -1, 3)
        + CountColumns(g, width, height, row, col, 0, 3) + CountColumns(g, width, height, row, col, 1, 3);
    }
  }

  /** Clipping: the count never exceeds the number of in-grid positions of
      the 3x3 window minus the centre (3 at a corner, 5 on an edge, 8 inside). */
  lemma LiveNeighboursBound(g: Cells, width: nat, height: nat, row: nat, col: nat)
    requires IsRect(g, width, height) && row < height && col < width
    ensures LiveNeighbours(g, width, height, row, col) <= Span(row, height) * Span(col, width) - 1 <= 8
  {
    LiveNeighboursUnfold(g, width, height, row, col);
    var sr, sc := Span(row, height), Span(col, width);
    assert 1 <= sr <= 3 && 1 <= sc <= 3;
    // The empty branches only split the cases of Span for the solver.
    if row == 0 || row + 1 == height {
      if col == 0 || col + 1 == width {
      } else {
      }
    }
  }

  /** The bound is reached when every cell is alive. */
  lemma LiveNeighboursAllAlive(g: Cells, width: nat, height: nat, row: nat, col: nat)
    requires IsRect(g, width, height) && AllAlive(g) && row < height && col < width
    ensures LiveNeighbours(g, width, height, row, col) == Span(row, height) * Span(col, width) - 1
  {
    LiveNeighboursUnfold(g, width, height, row, col);
  }

  /** Nothing is alive around a cell of an all-dead grid. */
  lemma LiveNeighboursAllDead(g: Cells, width: nat, height: nat, row: nat, col: nat)
    requires IsRect(g, width, height) && AllDead(g)
    ensures LiveNeighbours(g, width, height, row, col) == 0
  {
    LiveNeighboursUnfold(g, width, height, row, col);
  }

  /** The count depends only on the in-grid cells of the 3x3 window around
      (row, col) other than (row, col) itself: no wrap-around, no centre. */
  lemma LiveNeighboursLocal(g1: Cells, g2: Cells, width: nat, height: nat, row: nat, col: nat)
    requires IsRect(g1, width, height) && IsRect(g2, width, height)
    requires forall r, c ::
               (0 <= r < height && 0 <= c < width && row - 1 <= r <= row + 1 &&
                col - 1 <= c <= col + 1 && (r != row || c != col)) ==> g1[r][c] == g2[r][c]
    ensures LiveNeighbours(g1, width, height, row, col) == LiveNeighbours(g2, width, height, row, col)
  {
    LiveNeighboursUnfold(g1, width, height, row, col);
    LiveNeighboursUnfold(g2, width, height, row, col);
  }

  /** `g` with the cell at (row, col) replaced by `v`. */
  function WithCell(g: Cells, row: nat, col: nat, v: nat): Cells
    requires row < |g| && col < |g[row]|
  {
    var newRow: seq<nat> := g[row][col := v];
    g[row := newRow]
  }

  /** Changing the centre cell never changes its own neighbour count. */
  lemma LiveNeighboursIgnoresCentre(g: Cells, width: nat, height: nat, row: nat, col: nat, v: nat)
    requires IsRect(g, width, height) && row < height && col < width
    ensures IsRect(WithCell(g, row, col, v), width, height)
    ensures LiveNeighbours(WithCell(g, row, col, v), width, height, row, col)
         == LiveNeighbours(g, width, height, row, col)
  {
    LiveNeighboursLocal(WithCell(g, row, col, v), g, width, height, row, col);
  }

  /** A 1x1 board always dies: its only cell has no neighbour. */
  lemma SingleCellDies(g: Cells)
    requires IsRect(g, 1, 1) && IsBinary(g)
    ensures NextGrid(g, 1, 1) == [[0]]
  {
    LiveNeighboursBound(g, 1, 1, 0, 0);
    var next := NextGrid(g, 1, 1);
    assert next[0][0] == 0;
    assert next[0] == [0];
  }

  /** An all-dead grid stays all dead. */
  lemma AllDeadStaysDead(g: Cells, width: nat, height: nat)
    requires IsRect(g, width, height) && AllDead(g)
    ensures NextGrid(g, width, height) == g
  {
    var next := NextGrid(g, width, height);
    forall r, c | 0 <= r < height && 0 <= c < width
      ensures next[r][c] == g[r][c]
    {
      LiveNeighboursAllDead(g, width, height, r, c);
    }
    assert forall r | 0 <= r < height :: next[r] == g[r];
  }

  /** A live cell in the corner of an otherwise dead grid dies. */
  lemma LoneCornerDies(g: Cells, width: nat, height: nat)
    requires IsRect(g, width, height) && IsBinary(g) && width > 0 && height > 0
    requires forall r, c :: 0 <= r < height && 0 <= c < width ==> (g[r][c] == 1 <==> r == 0 && c == 0)
    ensures NextGrid(g, width, height)[0][0] == 0
  {
    LiveNeighboursUnfold(g, width, height, 0, 0);
  }

  /** `g` mirrored along its main diagonal: column c becomes row c. */
  function Transpose(g: Cells, width: nat, height: nat): (t: Cells)
    requires IsRect(g, width, height)
    ensures IsRect(t, height, width)
    ensures forall r, c :: 0 <= r < height && 0 <= c < width ==> t[c][r] == g[r][c]
  {
    seq(width, c requires 0 <= c < width => seq(height, r requires 0 <= r < height => g[r][c]))
  }

  /** Mirroring twice gives the grid back. */
  lemma TransposeTwice(g: Cells, width: nat, height: nat)
    requires IsRect(g, width, height)
    ensures Transpose(Transpose(g, width, height), height, width) == g
  {
    var tt := Transpose(Transpose(g, width, height), height, width);
    assert forall r | 0 <= r < height :: tt[r] == g[r];
  }

  /** Mirroring the grid mirrors every neighbour count. */
  lemma LiveNeighboursTranspose(g: Cells, width: nat, height: nat, row: nat, col: nat)
    requires IsRect(g, width, height)
    ensures LiveNeighbours(Transpose(g, width, height), height, width, col, row)
         == LiveNeighbours(g, width, height, row, col)
  {
    var t := Transpose(g, width, height);
    LiveNeighboursUnfold(g, width, height, row, col);
    LiveNeighboursUnfold(t, height, width, col, row);
  }

  /** The rule treats rows and columns alike: stepping a mirrored grid gives
      the mirror of the stepped grid. */
  lemma NextGridTranspose(g: Cells, width: nat, height: nat)
    requires IsRect(g, width, height) && IsBinary(g)
    ensures IsBinary(Transpose(g, width, height))
    ensures NextGrid(Transpose(g, width, height), height, width)
         == Transpose(NextGrid(g, width, height), width, height)
  {
    var t := Transpose(g, width, height);
    var lhs := NextGrid(t, height, width);
    var rhs := Transpose(NextGrid(g, width, height), width, height);
    forall c, r | 0 <= c < width && 0 <= r < height ensures lhs[c][r] == rhs[c][r] {
      LiveNeighboursTranspose(g, width, height, r, c);
    }
    assert forall c | 0 <= c < width :: lhs[c] == rhs[c];
  }

  /** A 2x2 block of live cells at rows 1-2, columns 1-2 of an otherwise
      dead `height` x `width` grid. */
  function BlockField(width: nat, height: nat): Cells
  {
    seq(height, r => seq(width, c => if 1 <= r <= 2 && 1 <= c <= 2 then 1 else 0))
  }

  /** The block is a still life on every board of at least 4x4: each of its
      cells has exactly 3 live neighbours and no dead cell has 3. */
  lemma BlockIsStill(width: nat, height: nat)
    requires 4 <= width && 4 <= height
    ensures IsRect(BlockField(width, height), width, height) && IsBinary(BlockField(width, height))
    ensures NextGrid(BlockField(width, height), width, height) == BlockField(width, height)
  {
    var g := BlockField(width, height);
    var next := NextGrid(g, width, height);
    forall r, c | 0 <= r < height && 0 <= c < width ensures next[r][c] == g[r][c] {
      LiveNeighboursUnfold(g, width, height, r, c);
    }
    assert forall r | 0 <= r < height :: next[r] == g[r];
  }

  /** A blinker in a dead 5x5 field: three live cells across the middle row ... */
  const BlinkerRow: Cells := seq(5, r => seq(5, c => if r == 2 && 1 <= c <= 3 then 1 else 0))
  /** ... and the same three cells turned down the middle column. */
  const BlinkerColumn: Cells := seq(5, r => seq(5, c => if c == 2 && 1 <= r <= 3 then 1 else 0))

  /** Each blinker phase is the other mirrored along the diagonal. */
  lemma BlinkerMirror()
    ensures IsRect(BlinkerRow, 5, 5) && IsRect(BlinkerColumn, 5, 5)
    ensures Transpose(BlinkerRow, 5, 5) == BlinkerColumn
    ensures Transpose(BlinkerColumn, 5, 5) == BlinkerRow
  {
    var t := Transpose(BlinkerRow, 5, 5);
    forall r | 0 <= r < 5 ensures t[r] == BlinkerColumn[r] {
      assert forall c | 0 <= c < 5 :: t[r][c] == BlinkerRow[c][r];
    }
    TransposeTwice(BlinkerRow, 5, 5);
  }

  /** The horizontal blinker turns vertical. */
  lemma BlinkerRowTurns()
    ensures IsRect(BlinkerRow, 5, 5) && IsBinary(BlinkerRow)
    ensures NextGrid(BlinkerRow, 5, 5) == BlinkerColumn
  {
    var next := NextGrid(BlinkerRow, 5, 5);
    forall r, c | 0 <= r < 5 && 0 <= c < 5 ensures next[r][c] == BlinkerColumn[r][c] {
      LiveNeighboursUnfold(BlinkerRow, 5, 5, r, c);
    }
    assert forall r | 0 <= r < 5 :: next[r] == BlinkerColumn[r];
  }

  /** The vertical blinker is the horizontal one mirrored along the diagonal,
      so it turns back by the symmetry of the rule. */
  lemma BlinkerColumnTurns()
    ensures IsRect(BlinkerColumn, 5, 5) && IsBinary(BlinkerColumn)
    ensures NextGrid(BlinkerColumn, 5, 5) == BlinkerRow
  {
    BlinkerMirror();
    BlinkerRowTurns();
    NextGridTranspose(BlinkerRow, 5, 5);
  }

  /** Two grids that step into each other alternate for ever: after an
      even number of generations the first is back, after an odd number
      the second is showing. */
  lemma {:induction false} AlternatesWithPeriodTwo(g: Cells, p: Cells, width: nat, height: nat, n: nat)
    requires IsRect(g, width, height) && IsBinary(g) && IsRect(p, width, height) && IsBinary(p)
    requires NextGrid(g, width, height) == p && NextGrid(p, width, height) == g
    ensures Iterate(g, width, height, n) == if n % 2 == 0 then g else p
  {
    if n > 0 {
      AlternatesWithPeriodTwo(g, p, width, height, n - 1);
    }
  }

  /** The blinker is an oscillator of period 2. */
  lemma BlinkerOscillates(n: nat)
    ensures IsRect(BlinkerRow, 5, 5) && IsBinary(BlinkerRow)
    ensures Iterate(BlinkerRow, 5, 5, n) == if n % 2 == 0 then BlinkerRow else BlinkerColumn
  {
    BlinkerRowTurns();
    BlinkerColumnTurns();
    AlternatesWithPeriodTwo(BlinkerRow, BlinkerColumn, 5, 5, n);
  }

  /** Reads the cell at (row, column) of the snapshot, counts its live
      neighbours by walking the offsets -1, 0, 1 for the row and then for
      the column, skipping positions outside the grid and the cell itself,
      and applies the rule (None: the centre cell is neither 0 nor 1). */
  method ComputeCellState(temporaryBoard: Cells, row: nat, column: nat, width: nat, height: nat)
    returns (state: Option<nat>)
    requires IsRect(temporaryBoard, width, height) && row < height && column < width
    ensures state == Rule(temporaryBoard[row][column],
                          LiveNeighbours(temporaryBoard, width, height, row, column))
  {
    var aliveNeighbours: nat := 0;
    var currentCell := temporaryBoard[row][column];
    for i := 0 to |NeighbourPositions|
      invariant aliveNeighbours == CountRows(temporaryBoard, width, height, row, column, i)
    {
      var rowMutator := NeighbourPositions[i];
      for j := 0 to |NeighbourPositions|
        invariant aliveNeighbours == CountRows(temporaryBoard, width, height, row, column, i)
          + CountColumns(temporaryBoard, width, height, row, column, rowMutator, j)
      {
        var columnMutator := NeighbourPositions[j];
        var neighbourRow := row + rowMutator;
        var neighbourColumn := column + columnMutator;
        if neighbourRow < 0 || neighbourColumn < 0 {
          continue;
        }
        if neighbourRow >= height || neighbourColumn >= width {
          continue;
        }
        if rowMutator == 0 && columnMutator == 0 {
          continue;
        }
        if temporaryBoard[neighbourRow][neighbourColumn] == 1 {
          aliveNeighbours := aliveNeighbours + 1;
        } else {
          continue;
        }
      }
    }
    if currentCell == 1 {
      if aliveNeighbours <= 1 {
        state := Some(0);
      } else if 2 <= aliveNeighbours <= 3 {
        state := Some(1);
      } else {
        state := Some(0);
      }
    } else if currentCell == 0 {
      if aliveNeighbours == 3 {
        state := Some(1);
      } else {
        state := Some(0);
      }
    } else {
      state := None;
    }
  }

  /** The board of src/main.rs: its dimensions, its grid and the number of
      the generation on show. */
  class Board {
    var width: nat
    var height: nat
    var state: Cells
    var generation: nat

    /** A grid of the board's own shape, holding only 0s and 1s. */
    ghost predicate Valid()
      reads this
    {
      IsRect(state, width, height) && IsBinary(state)
    }

    /** The initial board: a random `height` x `width` grid at generation 1. */
    constructor (width: nat, height: nat)
      ensures Valid()
      ensures this.width == width && this.height == height && generation == 1
    {
      var initial := InitializeBoard(width, height);
      this.width := width;
      this.height := height;
      this.state := initial;
      this.generation := 1;
    }

    /** Copies the grid, rewrites every cell in place from the copy, then
        counts one more generation. */
    method NextIteration()
      requires Valid()
      modifies this
      ensures Valid()
      ensures width == old(width) && height == old(height)
      ensures state == NextGrid(old(state), width, height)
      ensures generation == old(generation) + 1
    {
      var temporaryBoard := state;
      ghost var next := NextGrid(temporaryBoard, width, height);
      for row := 0 to height
        invariant width == old(width) && height == old(height) && generation == old(generation)
        invariant temporaryBoard == old(state)
        invariant IsRect(state, width, height)
        invariant forall r, c :: 0 <= r < row && 0 <= c < width ==> state[r][c] == next[r][c]
        invariant forall r :: row <= r < height ==> state[r] == temporaryBoard[r]
      {
        for column := 0 to width
          invariant width == old(width) && height == old(height) && generation == old(generation)
          invariant IsRect(state, width, height)
          invariant forall r, c :: 0 <= r < row && 0 <= c < width ==> state[r][c] == next[r][c]
          invariant forall c :: 0 <= c < column ==> state[row][c] == next[row][c]
          invariant forall c :: column <= c < width ==> state[row][c] == temporaryBoard[row][c]
          invariant forall r :: row < r < height ==> state[r] == temporaryBoard[r]
        {
          var newCellState := ComputeCellState(temporaryBoard, row, column, width, height);
          state := WithCell(state, row, column, newCellState.value);
        }
      }
      assert state == next by {
        forall r | 0 <= r < height ensures state[r] == next[r] {
        }
      }
      generation := generation + 1;
    }

    /** The first `n` passes of the run loop, without the rendering, the
        pause and the screen clearing between them. */
    method Run(n: nat)
      requires Valid()
      modifies this
      ensures Valid()
      ensures width == old(width) && height == old(height)
      ensures state == Iterate(old(state), width, height, n)
      ensures generation == old(generation) + n
    {
      for i := 0 to n
        invariant Valid()
        invariant width == old(width) && height == old(height)
        invariant state == Iterate(old(state), width, height, i)
        invariant generation == old(generation) + i
      {
        NextIteration();
      }
    }
  }
}
