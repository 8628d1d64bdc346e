/** The board bookkeeping of src/helpers.rs: counting the live cells,
    turning the lines of a board file into a grid, and building the loaded
    board (with its cached live-cell count) from them. */
module Helpers {
  import opened Grid

  /** The ways loading a board fails; the source panics in each case.
      NotADigit: a character that `to_digit(10)` rejects.
      NoLines: the file has no line, so there is no first row to measure.
      InvalidCell: a digit other than 0 or 1, caught by the live-cell count. */
  datatype LoadError = NotADigit | NoLines | InvalidCell

  datatype Result<T> = Ok(value: T) | Err(error: LoadError)

  // ---------------------------------------------------------------------
  // Counting live cells
  // ---------------------------------------------------------------------

  /** Number of cells equal to 1 in one row. */
  function RowAlive(row: seq<nat>): nat
  {
    if |row| == 0 then 0
    else RowAlive(row[..|row| - 1]) + (if row[|row| - 1] == 1 then 1 else 0)
  }

  /** Number of cells equal to 1 in the whole grid, row by row. */
  function AliveCount(g: Cells): nat
  {
    if |g| == 0 then 0
    else AliveCount(g[..|g| - 1]) + RowAlive(g[|g| - 1])
  }

  /** All cells of the grid in row-major order. */
  function Flatten(g: Cells): seq<nat>
  {
    if |g| == 0 then [] else Flatten(g[..|g| - 1]) + g[|g| - 1]
  }

  /** The row count is the multiplicity of 1 among the row's cells. */
  lemma {:induction false} RowAliveIsMultiplicity(row: seq<nat>)
    ensures RowAlive(row) == multiset(row)[1]
  {
    if |row| > 0 {
      var init := row[..|row| - 1];
      RowAliveIsMultiplicity(init);
      assert row == init + [row[|row| - 1]];
    }
  }

  /** The grid count is the multiplicity of 1 among all cells. */
  lemma {:induction false} AliveCountIsMultiplicity(g: Cells)
    ensures AliveCount(g) == multiset(Flatten(g))[1]
  {
    if |g| > 0 {
      AliveCountIsMultiplicity(g[..|g| - 1]);
      RowAliveIsMultiplicity(g[|g| - 1]);
    }
  }

  /** There are never more live cells than cells. */
  lemma AliveCountBound(g: Cells)
    ensures AliveCount(g) <= |Flatten(g)|
  {
    AliveCountIsMultiplicity(g);
    assert multiset(Flatten(g))[1] <= |multiset(Flatten(g))|;
  }

  /** A `height` x `width` grid has `width * height` cells. */
  lemma {:induction false} FlattenRect(g: Cells, width: nat, height: nat)
    requires IsRect(g, width, height)
    ensures |Flatten(g)| == width * height
  {
    if |g| > 0 {
      var n := |g| - 1;
      assert IsRect(g[..n], width, n);
      FlattenRect(g[..n], width, n);
      assert |Flatten(g)| == width * n + width;
      assert width * n + width == width * (n + 1);
    }
  }

  /** An all-dead grid has no live cell. */
  lemma {:induction false} AliveCountAllDead(g: Cells)
    requires AllDead(g)
    ensures AliveCount(g) == 0
  {
    if |g| > 0 {
      AliveCountAllDead(g[..|g| - 1]);
      AliveCountIsMultiplicity(g);
      RowAliveIsMultiplicity(g[|g| - 1]);
      var last := g[|g| - 1];
      assert 1 !in multiset(last);
    }
  }

  /** In an all-alive grid every cell counts. */
  lemma {:induction false} AliveCountAllAlive(g: Cells)
    requires AllAlive(g)
    ensures AliveCount(g) == |Flatten(g)|
  {
    if |g| > 0 {
      AliveCountAllAlive(g[..|g| - 1]);
      RowAllAlive(g[|g| - 1]);
    }
  }

  /** A row of ones counts all of its cells. */
  lemma {:induction false} RowAllAlive(row: seq<nat>)
    requires forall k :: 0 <= k < |row| ==> row[k] == 1
    ensures RowAlive(row) == |row|
  {
    if |row| > 0 {
      RowAllAlive(row[..|row| - 1]);
    }
  }

  /** Walks the rows and their cells, adding one per cell equal to 1 and
      stopping (None: the source panics) at the first cell that is neither
      0 nor 1. */
  method CountAliveCells(board: Cells) returns (count: Option<nat>)
    ensures count.Some? <==> IsBinary(board)
    ensures count.Some? ==> count.value == AliveCount(board)
  {
    var aliveCells: nat := 0;
    for i := 0 to |board|
      invariant aliveCells == AliveCount(board[..i])
      invariant forall r, c :: 0 <= r < i && 0 <= c < |board[r]| ==> board[r][c] <= 1
    {
      var row := board[i];
      for j := 0 to |row|
        invariant aliveCells == AliveCount(board[..i]) + RowAlive(row[..j])
        invariant forall c :: 0 <= c < j ==> row[c] <= 1
      {
        var cell := row[j];
        assert row[..j + 1][..j] == row[..j];
        if cell == 0 {
          continue;
        } else if cell == 1 {
          aliveCells := aliveCells + 1;
        } else {
          return None;
        }
      }
      assert row[..|row|] == row;
      assert board[..i + 1][..i] == board[..i];
    }
    assert board[..|board|] == board;
    count := Some(aliveCells);
  }

  // ---------------------------------------------------------------------
  // Parsing the lines of a board file
  // ---------------------------------------------------------------------

  /** `char::to_digit(10)`: the value of an ASCII decimal digit, None for
      any other character. */
  function ToDigit(ch: char): (d: Option<nat>)
    ensures d.Some? <==> '0' <= ch <= '9'
    ensures d.Some? ==> d.value < 10 && ('0' as int + d.value) as char == ch
  {
    if '0' <= ch <= '9' then Some(ch as int - '0' as int) else None
  }

  /** Every character of the line is a decimal digit. */
  predicate IsDigitLine(line: string)
  {
    forall k :: 0 <= k < |line| ==> '0' <= line[k] <= '9'
  }

  /** Every line consists of decimal digits only. */
  predicate AllDigitLines(lines: seq<string>)
  {
    forall i :: 0 <= i < |lines| ==> IsDigitLine(lines[i])
  }

  /** Every character of every line is '0' or '1'. */
  predicate IsBinaryText(lines: seq<string>)
  {
    forall i, k :: 0 <= i < |lines| && 0 <= k < |lines[i]| ==> lines[i][k] == '0' || lines[i][k] == '1'
  }

  /** The digit values of a line of digits, in order. */
  function Digits(line: string): (row: seq<nat>)
    requires IsDigitLine(line)
    ensures |row| == |line|
    ensures forall k :: 0 <= k < |line| ==> row[k] == line[k] as int - '0' as int
  {
    seq(|line|, k requires 0 <= k < |line| => ToDigit(line[k]).value)
  }

  /** One row per line, each holding that line's digit values; rows keep
      their own lengths. */
  function ParseGrid(lines: seq<string>): (g: Cells)
    requires AllDigitLines(lines)
    ensures |g| == |lines|
    ensures forall i :: 0 <= i < |lines| ==> |g[i]| == |lines[i]|
    ensures forall i, k :: 0 <= i < |lines| && 0 <= k < |lines[i]| ==>
              g[i][k] == lines[i][k] as int - '0' as int && g[i][k] <= 9
              && (g[i][k] == 1 <==> lines[i][k] == '1') && (g[i][k] == 0 <==> lines[i][k] == '0')
  {
    seq(|lines|, i requires 0 <= i < |lines| => Digits(lines[i]))
  }

  /** Number of '1' characters in a line. */
  function OnesInLine(line: string): nat
  {
    if |line| == 0 then 0
    else OnesInLine(line[..|line| - 1]) + (if line[|line| - 1] == '1' then 1 else 0)
  }

  /** Number of '1' characters in all lines. */
  function OnesInText(lines: seq<string>): nat
  {
    if |lines| == 0 then 0
    else OnesInText(lines[..|lines| - 1]) + OnesInLine(lines[|lines| - 1])
  }

  /** The parsed grid is made only of 0s and 1s exactly when the text is,
      so a digit from 2 to 9 passes parsing but leaves a grid that the
      live-cell count refuses. */
  lemma ParsedBinaryIff(lines: seq<string>)
    requires AllDigitLines(lines)
    ensures IsBinary(ParseGrid(lines)) <==> IsBinaryText(lines)
  {
  }

  /** The digits of a line hold as many 1s as the line holds '1's. */
  lemma {:induction false} RowAliveDigits(line: string)
    requires IsDigitLine(line)
    ensures RowAlive(Digits(line)) == OnesInLine(line)
  {
    if |line| > 0 {
      var init := line[..|line| - 1];
      RowAliveDigits(init);
      assert Digits(line)[..|line| - 1] == Digits(init);
    }
  }

  /** The live cells of a parsed grid are the '1' characters of the text. */
  lemma {:induction false} AliveCountParsed(lines: seq<string>)
    requires AllDigitLines(lines)
    ensures AliveCount(ParseGrid(lines)) == OnesInText(lines)
  {
    if |lines| > 0 {
      var init := lines[..|lines| - 1];
      AliveCountParsed(init);
      RowAliveDigits(lines[|lines| - 1]);
      assert ParseGrid(lines)[..|lines| - 1] == ParseGrid(init);
    }
  }

  /** The three-line file 010 / 101 / 010 parses to a 3x3 grid of 0s and
      1s with four live cells. */
  lemma SampleFile()
    ensures AllDigitLines(["010", "101", "010"])
    ensures ParseGrid(["010", "101", "010"]) == [[0, 1, 0], [1, 0, 1], [0, 1, 0]]
    ensures AliveCount(ParseGrid(["010", "101", "010"])) == 4
  {
    var lines := ["010", "101", "010"];
    assert IsDigitLine("010") && IsDigitLine("101");
    var g := ParseGrid(lines);
    var a: seq<nat>, b: seq<nat> := [0, 1, 0], [1, 0, 1];
    assert forall i | 0 <= i < 3 :: g[i] == [a, b, a][i];
    SampleRowCounts();
    SampleGridCount();
  }

  /** The live cells of the sample file's grid, row by row. */
  lemma SampleGridCount()
    ensures AliveCount([[0, 1, 0], [1, 0, 1], [0, 1, 0]]) == 4
  {
    var a: seq<nat>, b: seq<nat> := [0, 1, 0], [1, 0, 1];
    SampleRowCounts();
    var g1: Cells := [a];
    assert g1[..0] == [];
    assert AliveCount(g1) == 1;
    var g2: Cells := [a, b];
    assert g2[..1] == g1;
    assert AliveCount(g2) == 3;
    var g3: Cells := [a, b, a];
    assert g3[..2] == g2;
  }

  /** The live cells of the sample file's two kinds of rows. */
  lemma SampleRowCounts()
    ensures RowAlive([0, 1, 0]) == 1 && RowAlive([1, 0, 1]) == 2
  {
    var a: seq<nat>, b: seq<nat> := [0, 1, 0], [1, 0, 1];
    assert a[..2] == [0, 1] && a[..2][..1] == [0] && |a[..2][..1][..0]| == 0;
    assert RowAlive([0]) == 0 && RowAlive([0, 1]) == 1;
    assert b[..2] == [1, 0] && b[..2][..1] == [1] && |b[..2][..1][..0]| == 0;
    assert RowAlive([1]) == 1 && RowAlive([1, 0]) == 1;
  }

  /** Reads the lines in order, turning each character into its digit
      value and each line into a row; the first character that is not a
      decimal digit stops the parse (the source panics). Rows of differing
      lengths are kept as they are. */
  method ParseLines(lines: seq<string>) returns (r: Result<Cells>)
    ensures r.Ok? <==> AllDigitLines(lines)
    ensures r.Ok? ==> r.value == ParseGrid(lines)
    ensures r.Err? ==> r.error == NotADigit
  {
    var board: Cells := [];
    for i := 0 to |lines|
      invariant AllDigitLines(lines[..i])
      invariant board == ParseGrid(lines[..i])
    {
      var line := lines[i];
      var row: seq<nat> := [];
      for j := 0 to |line|
        invariant IsDigitLine(line[..j])
        invariant row == Digits(line[..j])
      {
        var digit := ToDigit(line[j]);
        if digit.None? {
          return Err(NotADigit);
        }
        row := row + [digit.value];
      }
      assert line[..|line|] == line;
      assert lines[..i + 1] == lines[..i] + [line];
      board := board + [row];
    }
    assert lines[..|lines|] == lines;
    r := Ok(board);
  }

  // ---------------------------------------------------------------------
  // The loaded board
  // ---------------------------------------------------------------------

  /** The board of src/helpers.rs, with its cached number of live cells. */
  class Board {
    var width: nat
    var height: nat
    var state: Cells
    var generation: nat
    var aliveCells: nat

    /** The board as first built: generation 1 and a live-cell count of 0
        that the loader fills in afterwards. */
    constructor (width: nat, height: nat, state: Cells)
      ensures this.width == width && this.height == height && this.state == state
      ensures generation == 1 && aliveCells == 0
    {
      this.width := width;
      this.height := height;
      this.state := state;
      this.generation := 1;
      this.aliveCells := 0;
    }
  }

  /** Builds a board from the lines of a board file: parse every line,
      take the width from the first row and the height from the number of
      rows, start at generation 1, then store the live-cell count. Fails
      (the source panics) on a non-digit character, on an empty file, and
      on a digit other than 0 or 1, in that order. */
  method ReadBoard(lines: seq<string>) returns (r: Result<Board>)
    ensures r.Ok? <==> AllDigitLines(lines) && |lines| > 0 && IsBinary(ParseGrid(lines))
    ensures r.Err? ==> r.error == (if !AllDigitLines(lines) then NotADigit
                                   else if |lines| == 0 then NoLines
                                   else InvalidCell)
    ensures r.Ok? ==> (r.value.state == ParseGrid(lines)
                       && r.value.width == |lines[0]| && r.value.height == |lines|
                       && r.value.generation == 1
                       && r.value.aliveCells == AliveCount(r.value.state))
  {
    var parsed := ParseLines(lines);
    if parsed.Err? {
      return Err(parsed.error);
    }
    var board := parsed.value;
    if |board| == 0 {
      return Err(NoLines);
    }
    var width := |board[0]|;
    var height := |board|;
    var gameBoard := new Board(width, height, board);
    var count := CountAliveCells(gameBoard.state);
    if count.None? {
      return Err(InvalidCell);
    }
    gameBoard.aliveCells := count.value;
    r := Ok(gameBoard);
  }
}
