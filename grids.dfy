/**
 * The 4x4 board as a value: a sequence of rows, each a sequence of cell
 * values.  This module states what each of the four moves does to the whole
 * board, which cells count as empty and in which order they are listed, and
 * where a random spawn puts its tile.  The class in module Engine is proved to
 * follow these definitions.
 */
module Grids {
  import opened Lines

  /** BOARD_SIZE: the board is Size x Size. */
  const Size := 4
  /** WIN_VALUE: the tile the unfinished win check is documented to look for. */
  const WinValue := 2048

  type Grid = seq<seq<int>>

  predicate IsGrid(g: Grid)
  {
    |g| == Size && forall r :: 0 <= r < Size ==> |g[r]| == Size
  }

  /** Every cell of the board holds a legal value (0, or a power of two >= 2). */
  predicate AllTilesGrid(g: Grid)
  {
    IsGrid(g) && forall r :: 0 <= r < Size ==> AllTiles(g[r])
  }

  function Column(g: Grid, c: int): (col: seq<int>)
    requires IsGrid(g) && 0 <= c < Size
  {
    seq(Size, r requires 0 <= r < Size => g[r][c])
  }

  function Transpose(g: Grid): (t: Grid)
    requires IsGrid(g)
    ensures IsGrid(t)
  {
    seq(Size, c requires 0 <= c < Size => Column(g, c))
  }

  /** Two boards with the same cells are the same board. */
  lemma SameCells(g: Grid, h: Grid)
    requires IsGrid(g) && IsGrid(h)
    requires forall r, c :: 0 <= r < Size && 0 <= c < Size ==> g[r][c] == h[r][c]
    ensures g == h
  {
    forall r | 0 <= r < Size
      ensures g[r] == h[r]
    {
      assert forall c :: 0 <= c < Size ==> g[r][c] == h[r][c];
    }
  }

  lemma TransposeTwice(g: Grid)
    requires IsGrid(g)
    ensures Transpose(Transpose(g)) == g
  {
    var t := Transpose(Transpose(g));
    forall r | 0 <= r < Size
      ensures t[r] == g[r]
    {
      assert forall c :: 0 <= c < Size ==> t[r][c] == g[r][c];
    }
  }

  // ---------------------------------------------------------------------------
  // The four moves on a whole board (before any spawn)

  /** A board after the slide of a move, and the points the move's merges earned. */
  datatype Shift = Shift(grid: Grid, gained: int)

  /** Points earned by sliding every given line left, added up in order. */
  function LeftGains(lines: seq<seq<int>>): int
  {
    if lines == [] then 0
    else LeftGains(lines[..|lines| - 1]) + SlideLeft(lines[|lines| - 1]).gained
  }

  /** Points earned by sliding every given line right, added up in order. */
  function RightGains(lines: seq<seq<int>>): int
  {
    if lines == [] then 0
    else RightGains(lines[..|lines| - 1]) + SlideRight(lines[|lines| - 1]).gained
  }

  /** The gains of the first n + 1 lines are those of the first n plus line n's. */
  lemma GainsStep(lines: seq<seq<int>>, n: int)
    requires 0 <= n < |lines|
    ensures LeftGains(lines[..n + 1]) == LeftGains(lines[..n]) + SlideLeft(lines[n]).gained
    ensures RightGains(lines[..n + 1]) == RightGains(lines[..n]) + SlideRight(lines[n]).gained
  {
    assert lines[..n + 1][..n] == lines[..n];
  }

  function MoveLeftGrid(g: Grid): (s: Shift)
    requires IsGrid(g)
    ensures IsGrid(s.grid)
  {
    Shift(seq(Size, r requires 0 <= r < Size => SlideLeft(g[r]).line), LeftGains(g))
  }

  function MoveRightGrid(g: Grid): (s: Shift)
    requires IsGrid(g)
    ensures IsGrid(s.grid)
  {
    Shift(seq(Size, r requires 0 <= r < Size => SlideRight(g[r]).line), RightGains(g))
  }

  /** A board's right-move points are the sum of its four rows' points. */
  lemma RightGainsOfGrid(g: Grid)
    requires IsGrid(g)
    ensures RightGains(g) == SlideRight(g[0]).gained + SlideRight(g[1]).gained
      + SlideRight(g[2]).gained + SlideRight(g[3]).gained
  {
    GainsStep(g, 0);
    GainsStep(g, 1);
    GainsStep(g, 2);
    GainsStep(g, 3);
    assert g[..0] == [] && g[..4] == g;
  }

  /** Up is left applied to the columns. */
  function MoveUpGrid(g: Grid): (s: Shift)
    requires IsGrid(g)
    ensures IsGrid(s.grid)
  {
    var t := MoveLeftGrid(Transpose(g));
    Shift(Transpose(t.grid), t.gained)
  }

  /** Down is right applied to the columns. */
  function MoveDownGrid(g: Grid): (s: Shift)
    requires IsGrid(g)
    ensures IsGrid(s.grid)
  {
    var t := MoveRightGrid(Transpose(g));
    Shift(Transpose(t.grid), t.gained)
  }

  /** The board g with column c replaced by col. */
  function SetColumn(g: Grid, c: int, col: seq<int>): (h: Grid)
    requires IsGrid(g) && 0 <= c < Size && |col| == Size
    ensures IsGrid(h)
    ensures Column(h, c) == col
    ensures forall r, k :: 0 <= r < Size && 0 <= k < Size && k != c ==> h[r][k] == g[r][k]
  {
    seq(Size, r requires 0 <= r < Size => g[r][c := col[r]])
  }

  /** The first n columns of t, the rest of g. */
  function ColumnsFrom(t: Grid, g: Grid, n: int): (h: Grid)
    requires IsGrid(t) && IsGrid(g) && 0 <= n <= Size
    ensures IsGrid(h)
  {
    seq(Size, r requires 0 <= r < Size => t[r][..n] + g[r][n..])
  }

  lemma ColumnsFromEnds(t: Grid, g: Grid)
    requires IsGrid(t) && IsGrid(g)
    ensures ColumnsFrom(t, g, 0) == g && ColumnsFrom(t, g, Size) == t
  {
    SameCells(ColumnsFrom(t, g, 0), g);
    SameCells(ColumnsFrom(t, g, Size), t);
  }

  /** Replacing column c of a half-processed board moves the boundary by one column. */
  lemma ColumnStep(t: Grid, g: Grid, c: int)
    requires IsGrid(t) && IsGrid(g) && 0 <= c < Size
    ensures Column(ColumnsFrom(t, g, c), c) == Column(g, c)
    ensures SetColumn(ColumnsFrom(t, g, c), c, Column(t, c)) == ColumnsFrom(t, g, c + 1)
  {
    var h := ColumnsFrom(t, g, c);
    assert forall r :: 0 <= r < Size ==> h[r][c] == g[r][c];
    SameCells(SetColumn(h, c, Column(t, c)), ColumnsFrom(t, g, c + 1));
  }

  /** Each column after an up move is the left slide of that column alone. */
  lemma MoveUpByColumn(g: Grid, c: int)
    requires IsGrid(g) && 0 <= c < Size
    ensures Column(MoveUpGrid(g).grid, c) == SlideLeft(Column(g, c)).line
  {
    assert Transpose(g)[c] == Column(g, c);
  }

  /** Each column after a down move is the right slide of that column alone. */
  lemma MoveDownByColumn(g: Grid, c: int)
    requires IsGrid(g) && 0 <= c < Size
    ensures Column(MoveDownGrid(g).grid, c) == SlideRight(Column(g, c)).line
  {
    assert Transpose(g)[c] == Column(g, c);
  }

  // ---------------------------------------------------------------------------
  // A move that changes no cell earns no points

  lemma {:induction false} LeftGainsOfFixedLines(lines: seq<seq<int>>)
    requires forall i :: 0 <= i < |lines| ==> SlideLeft(lines[i]).line == lines[i]
    ensures LeftGains(lines) == 0
  {
    if lines != [] {
      SlideLeftUnchangedScoresNothing(lines[|lines| - 1]);
      LeftGainsOfFixedLines(lines[..|lines| - 1]);
    }
  }

  lemma {:induction false} RightGainsOfFixedLines(lines: seq<seq<int>>)
    requires forall i :: 0 <= i < |lines| ==> SlideRight(lines[i]).line == lines[i]
    ensures RightGains(lines) == 0
  {
    if lines != [] {
      SlideRightUnchangedScoresNothing(lines[|lines| - 1]);
      RightGainsOfFixedLines(lines[..|lines| - 1]);
    }
  }

  /** If a move leaves the board as it was, it earns no points: left. */
  lemma UnchangedLeftScoresNothing(g: Grid)
    requires IsGrid(g) && MoveLeftGrid(g).grid == g
    ensures MoveLeftGrid(g).gained == 0
  {
    assert forall i :: 0 <= i < Size ==> SlideLeft(g[i]).line == MoveLeftGrid(g).grid[i];
    LeftGainsOfFixedLines(g);
  }

  /** If a move leaves the board as it was, it earns no points: right. */
  lemma UnchangedRightScoresNothing(g: Grid)
    requires IsGrid(g) && MoveRightGrid(g).grid == g
    ensures MoveRightGrid(g).gained == 0
  {
    assert forall i :: 0 <= i < Size ==> SlideRight(g[i]).line == MoveRightGrid(g).grid[i];
    RightGainsOfFixedLines(g);
  }

  /** If a move leaves the board as it was, it earns no points: up. */
  lemma UnchangedUpScoresNothing(g: Grid)
    requires IsGrid(g) && MoveUpGrid(g).grid == g
    ensures MoveUpGrid(g).gained == 0
  {
    var t := Transpose(g);
    var s := MoveLeftGrid(t).grid;
    TransposeTwice(s);
    assert s == t;
    assert forall i :: 0 <= i < Size ==> SlideLeft(t[i]).line == s[i];
    LeftGainsOfFixedLines(t);
  }

  /** If a move leaves the board as it was, it earns no points: down. */
  lemma UnchangedDownScoresNothing(g: Grid)
    requires IsGrid(g) && MoveDownGrid(g).grid == g
    ensures MoveDownGrid(g).gained == 0
  {
    var t := Transpose(g);
    var s := MoveRightGrid(t).grid;
    TransposeTwice(s);
    assert s == t;
    assert forall i :: 0 <= i < Size ==> SlideRight(t[i]).line == s[i];
    RightGainsOfFixedLines(t);
  }

  // ---------------------------------------------------------------------------
  // Moves keep tile values legal and never lower the score

  /** On lines of legal tiles the left merges never earn negative points. */
  lemma {:induction false} LeftGainsNonNegative(lines: seq<seq<int>>)
    requires forall i :: 0 <= i < |lines| ==> AllTiles(lines[i])
    ensures LeftGains(lines) >= 0
  {
    if lines != [] {
      SlideLeftGainBounds(lines[|lines| - 1]);
      LeftGainsNonNegative(lines[..|lines| - 1]);
    }
  }

  /** On lines of legal tiles the right merges never earn negative points. */
  lemma {:induction false} RightGainsNonNegative(lines: seq<seq<int>>)
    requires forall i :: 0 <= i < |lines| ==> AllTiles(lines[i])
    ensures RightGains(lines) >= 0
  {
    if lines != [] {
      SlideRightGainBounds(lines[|lines| - 1]);
      RightGainsNonNegative(lines[..|lines| - 1]);
    }
  }

  lemma TransposeKeepsTiles(g: Grid)
    requires AllTilesGrid(g)
    ensures AllTilesGrid(Transpose(g))
  {
    forall c | 0 <= c < Size
      ensures AllTiles(Transpose(g)[c])
    {
      forall r | 0 <= r < Size
        ensures IsTile(Transpose(g)[c][r])
      {
        assert AllTiles(g[r]);
      }
    }
  }

  /**
   * On a board of legal tile values, every move produces a board of legal tile
   * values and earns a non-negative number of points.
   */
  lemma MovesKeepTiles(g: Grid)
    requires AllTilesGrid(g)
    ensures AllTilesGrid(MoveLeftGrid(g).grid) && MoveLeftGrid(g).gained >= 0
    ensures AllTilesGrid(MoveRightGrid(g).grid) && MoveRightGrid(g).gained >= 0
    ensures AllTilesGrid(MoveUpGrid(g).grid) && MoveUpGrid(g).gained >= 0
    ensures AllTilesGrid(MoveDownGrid(g).grid) && MoveDownGrid(g).gained >= 0
  {
    forall r | 0 <= r < Size
      ensures AllTiles(SlideLeft(g[r]).line) && AllTiles(SlideRight(g[r]).line)
    {
      SlideLeftKeepsTiles(g[r]);
      SlideRightKeepsTiles(g[r]);
    }
    LeftGainsNonNegative(g);
    RightGainsNonNegative(g);
    var t := Transpose(g);
    TransposeKeepsTiles(g);
    forall c | 0 <= c < Size
      ensures AllTiles(SlideLeft(t[c]).line) && AllTiles(SlideRight(t[c]).line)
    {
      SlideLeftKeepsTiles(t[c]);
      SlideRightKeepsTiles(t[c]);
    }
    LeftGainsNonNegative(t);
    RightGainsNonNegative(t);
    TransposeKeepsTiles(MoveLeftGrid(t).grid);
    TransposeKeepsTiles(MoveRightGrid(t).grid);
  }

  // ---------------------------------------------------------------------------
  // Empty cells, listed row by row

  /** The {row, col} pair the source uses to name a cell. */
  datatype Cell = Cell(row: int, col: int)

  predicate OnBoard(cell: Cell)
  {
    0 <= cell.row < Size && 0 <= cell.col < Size
  }

  /** Row-major order: a comes before b when it is in an earlier row, or earlier in the same row. */
  predicate Before(a: Cell, b: Cell)
  {
    a.row < b.row || (a.row == b.row && a.col < b.col)
  }

  /** The empty cells among the first n cells of row `row`, left to right. */
  function EmptyInRow(g: Grid, row: int, n: nat): seq<Cell>
    requires IsGrid(g) && 0 <= row < Size && n <= Size
  {
    if n == 0 then []
    else EmptyInRow(g, row, n - 1) + (if g[row][n - 1] == 0 then [Cell(row, n - 1)] else [])
  }

  /** The empty cells of the first r rows, row by row. */
  function EmptyInRows(g: Grid, r: nat): seq<Cell>
    requires IsGrid(g) && r <= Size
  {
    if r == 0 then [] else EmptyInRows(g, r - 1) + EmptyInRow(g, r - 1, Size)
  }

  /** The cells getEmptyCells lists: every empty cell, in row-major order. */
  function EmptyCells(g: Grid): (cells: seq<Cell>)
    requires IsGrid(g)
    ensures forall i :: 0 <= i < |cells| ==> OnBoard(cells[i]) && g[cells[i].row][cells[i].col] == 0
  {
    EmptyInRowsSound(g, Size);
    EmptyInRows(g, Size)
  }

  /**
   * Every listed cell is on the board, empty and among the first `rows` rows
   * (within row `rows`, among the first `cols` cells), and the list is in
   * strictly increasing row-major order.
   */
  predicate ListedSound(g: Grid, rows: nat, cols: nat, cells: seq<Cell>)
    requires IsGrid(g)
  {
    && (forall i :: 0 <= i < |cells| ==>
          && OnBoard(cells[i]) && g[cells[i].row][cells[i].col] == 0
          && (cells[i].row < rows || (cells[i].row == rows && cells[i].col < cols)))
    && (forall i, j :: 0 <= i < j < |cells| ==> Before(cells[i], cells[j]))
  }

  lemma {:induction false} EmptyInRowSound(g: Grid, row: int, n: nat)
    requires IsGrid(g) && 0 <= row < Size && n <= Size
    ensures ListedSound(g, row, n, EmptyInRow(g, row, n))
    ensures forall i :: 0 <= i < |EmptyInRow(g, row, n)| ==> EmptyInRow(g, row, n)[i].row == row
  {
    if n > 0 {
      EmptyInRowSound(g, row, n - 1);
      var prev := EmptyInRow(g, row, n - 1);
      var cell := Cell(row, n - 1);
      var cells := EmptyInRow(g, row, n);
      assert cells == prev + (if g[row][n - 1] == 0 then [cell] else []);
      forall i | 0 <= i < |cells|
        ensures OnBoard(cells[i]) && g[cells[i].row][cells[i].col] == 0
        ensures cells[i].row == row && cells[i].col < n
      {
        if i < |prev| {
          assert cells[i] == prev[i];
        } else {
          assert cells[i] == cell;
        }
      }
      forall i, j | 0 <= i < j < |cells|
        ensures Before(cells[i], cells[j])
      {
        assert cells[i] == prev[i];
        if j < |prev| {
          assert cells[j] == prev[j];
        } else {
          assert cells[j] == cell;
        }
      }
    }
  }

  lemma {:induction false} EmptyInRowsSound(g: Grid, r: nat)
    requires IsGrid(g) && r <= Size
    ensures ListedSound(g, r, 0, EmptyInRows(g, r))
  {
    if r > 0 {
      EmptyInRowsSound(g, r - 1);
      EmptyInRowSound(g, r - 1, Size);
      var prev := EmptyInRows(g, r - 1);
      var last := EmptyInRow(g, r - 1, Size);
      var cells := EmptyInRows(g, r);
      assert cells == prev + last;
      forall i | 0 <= i < |cells|
        ensures OnBoard(cells[i]) && g[cells[i].row][cells[i].col] == 0 && cells[i].row < r
      {
        if i < |prev| {
          assert cells[i] == prev[i];
        } else {
          assert cells[i] == last[i - |prev|];
        }
      }
      forall i, j | 0 <= i < j < |cells|
        ensures Before(cells[i], cells[j])
      {
        if j < |prev| {
          assert cells[i] == prev[i] && cells[j] == prev[j];
        } else if i < |prev| {
          assert cells[i] == prev[i] && cells[j] == last[j - |prev|];
        } else {
          assert cells[i] == last[i - |prev|] && cells[j] == last[j - |prev|];
        }
      }
    }
  }

  lemma {:induction false} EmptyInRowComplete(g: Grid, row: int, n: nat, col: int)
    requires IsGrid(g) && 0 <= row < Size && 0 <= col < n <= Size && g[row][col] == 0
    ensures Cell(row, col) in EmptyInRow(g, row, n)
  {
    if col < n - 1 {
      EmptyInRowComplete(g, row, n - 1, col);
    }
  }

  lemma {:induction false} EmptyInRowsComplete(g: Grid, r: nat, cell: Cell)
    requires IsGrid(g) && r <= Size && OnBoard(cell) && cell.row < r && g[cell.row][cell.col] == 0
    ensures cell in EmptyInRows(g, r)
  {
    if cell.row < r - 1 {
      EmptyInRowsComplete(g, r - 1, cell);
    } else {
      EmptyInRowComplete(g, cell.row, Size, cell.col);
    }
  }

  /**
   * The list of empty cells holds exactly the on-board cells whose value is 0,
   * each once, in row-major order.
   */
  lemma EmptyCellsExact(g: Grid)
    requires IsGrid(g)
    ensures forall cell :: cell in EmptyCells(g) <==> OnBoard(cell) && g[cell.row][cell.col] == 0
    ensures forall i, j :: 0 <= i < j < |EmptyCells(g)| ==> Before(EmptyCells(g)[i], EmptyCells(g)[j])
  {
    EmptyInRowsSound(g, Size);
    forall cell | OnBoard(cell) && g[cell.row][cell.col] == 0
      ensures cell in EmptyCells(g)
    {
      EmptyInRowsComplete(g, Size, cell);
    }
  }

  // ---------------------------------------------------------------------------
  // Spawning a random tile

  /**
   * The random numbers one spawn draws: `fraction` is Math.random() (choosing
   * the cell), `firstRoll` and `secondRoll` are the two random.nextInt(10)
   * calls that choose the value.
   */
  datatype Draw = Draw(fraction: real, firstRoll: int, secondRoll: int)
  {
    predicate InRange()
    {
      0.0 <= fraction < 1.0 && 0 <= firstRoll < 10 && 0 <= secondRoll < 10
    }
  }

  lemma ScaledBelow(fraction: real, n: nat)
    requires 0.0 <= fraction < 1.0 && n > 0
    ensures 0.0 <= fraction * n as real < n as real
  {
    assert (1.0 - fraction) * n as real > 0.0;
  }

  /** The index (int)(fraction * n) into a list of n cells. */
  function Pick(fraction: real, n: nat): (i: nat)
    requires 0.0 <= fraction < 1.0 && n > 0
    ensures i < n
  {
    ScaledBelow(fraction, n);
    (fraction * n as real).Floor
  }

  /** The tile a roll of random.nextInt(10) asks for: 2 for rolls 0..8, 4 for 9. */
  function TileFor(roll: int): (v: int)
    ensures v == 2 || v == 4
    ensures IsTile(v)
  {
    if roll < 9 then 2 else 4
  }

  function SetCell(g: Grid, cell: Cell, v: int): (g': Grid)
    requires IsGrid(g) && OnBoard(cell)
    ensures IsGrid(g')
  {
    g[cell.row := g[cell.row][cell.col := v]]
  }

  /**
   * The board after addRandomTile: unchanged when no cell is empty; otherwise
   * the chosen empty cell first gets the value of the first roll, which the
   * second roll's value then overwrites.
   */
  function Spawned(g: Grid, d: Draw): (g': Grid)
    requires IsGrid(g) && d.InRange()
    ensures IsGrid(g')
  {
    var cells := EmptyCells(g);
    if |cells| == 0 then g
    else
      var cell := cells[Pick(d.fraction, |cells|)];
      SetCell(SetCell(g, cell, TileFor(d.firstRoll)), cell, TileFor(d.secondRoll))
  }

  predicate Full(g: Grid)
    requires IsGrid(g)
  {
    forall r, c :: 0 <= r < Size && 0 <= c < Size ==> g[r][c] != 0
  }

  /** The list of empty cells is empty exactly when the board is full. */
  lemma NoEmptyCellsIffFull(g: Grid)
    requires IsGrid(g)
    ensures EmptyCells(g) == [] <==> Full(g)
  {
    EmptyCellsExact(g);
    if EmptyCells(g) != [] {
      var cell := EmptyCells(g)[0];
      assert g[cell.row][cell.col] == 0;
    }
    if !Full(g) {
      var r, c :| 0 <= r < Size && 0 <= c < Size && g[r][c] == 0;
      assert Cell(r, c) in EmptyCells(g);
    }
  }

  /** On a board without an empty cell a spawn changes nothing. */
  lemma SpawnOnFullBoard(g: Grid, d: Draw)
    requires IsGrid(g) && d.InRange() && Full(g)
    ensures Spawned(g, d) == g
  {
    NoEmptyCellsIffFull(g);
  }

  /**
   * On a board with an empty cell a spawn sets exactly one previously empty
   * cell to 2 or 4 and leaves every other cell as it was.
   */
  lemma SpawnFillsOneEmptyCell(g: Grid, d: Draw)
    requires IsGrid(g) && d.InRange() && !Full(g)
    ensures exists cell :: (OnBoard(cell) && g[cell.row][cell.col] == 0
      && Spawned(g, d)[cell.row][cell.col] in {2, 4}
      && forall r, c :: 0 <= r < Size && 0 <= c < Size && Cell(r, c) != cell ==> Spawned(g, d)[r][c] == g[r][c])
  {
    var r, c :| 0 <= r < Size && 0 <= c < Size && g[r][c] == 0;
    EmptyCellsExact(g);
    assert Cell(r, c) in EmptyCells(g);
    var cells := EmptyCells(g);
    var cell := cells[Pick(d.fraction, |cells|)];
    assert OnBoard(cell) && g[cell.row][cell.col] == 0;
  }

  lemma {:induction false} EmptyInRowAfterSet(g: Grid, cell: Cell, v: int, row: int, n: nat)
    requires IsGrid(g) && OnBoard(cell) && g[cell.row][cell.col] == 0 && v != 0
    requires 0 <= row < Size && n <= Size
    ensures |EmptyInRow(SetCell(g, cell, v), row, n)|
      == |EmptyInRow(g, row, n)| - (if cell.row == row && cell.col < n then 1 else 0)
  {
    if n > 0 {
      EmptyInRowAfterSet(g, cell, v, row, n - 1);
    }
  }

  lemma {:induction false} EmptyCountAfterSet(g: Grid, cell: Cell, v: int, r: nat)
    requires IsGrid(g) && OnBoard(cell) && g[cell.row][cell.col] == 0 && v != 0 && r <= Size
    ensures |EmptyInRows(SetCell(g, cell, v), r)|
      == |EmptyInRows(g, r)| - (if cell.row < r then 1 else 0)
  {
    if r > 0 {
      EmptyCountAfterSet(g, cell, v, r - 1);
      EmptyInRowAfterSet(g, cell, v, r - 1, Size);
    }
  }

  /** A spawn on a board with an empty cell leaves exactly one empty cell fewer. */
  lemma SpawnUsesOneEmptyCell(g: Grid, d: Draw)
    requires IsGrid(g) && d.InRange() && |EmptyCells(g)| > 0
    ensures |EmptyCells(Spawned(g, d))| == |EmptyCells(g)| - 1
  {
    var cells := EmptyCells(g);
    var cell := cells[Pick(d.fraction, |cells|)];
    var g1 := SetCell(g, cell, TileFor(d.firstRoll));
    assert g1[cell.row][cell.col := TileFor(d.secondRoll)] == g[cell.row][cell.col := TileFor(d.secondRoll)];
    assert SetCell(g1, cell, TileFor(d.secondRoll)) == SetCell(g, cell, TileFor(d.secondRoll));
    EmptyCountAfterSet(g, cell, TileFor(d.secondRoll), Size);
  }

  /** A spawn keeps every cell a legal tile value. */
  lemma SpawnKeepsTiles(g: Grid, d: Draw)
    requires AllTilesGrid(g) && d.InRange()
    ensures AllTilesGrid(Spawned(g, d))
  {
    assert IsPowerOfTwo(4);
    var g' := Spawned(g, d);
    forall r | 0 <= r < Size
      ensures AllTiles(g'[r])
    {
      assert AllTiles(g[r]);
    }
  }

  // ---------------------------------------------------------------------------
  // A new game

  function EmptyGrid(): (g: Grid)
    ensures IsGrid(g)
  {
    seq(Size, _ => Zeros(Size))
  }

  lemma {:induction false} AllEmptyInRow(g: Grid, row: int, n: nat)
    requires IsGrid(g) && 0 <= row < Size && n <= Size
    requires forall c :: 0 <= c < Size ==> g[row][c] == 0
    ensures |EmptyInRow(g, row, n)| == n
  {
    if n > 0 {
      AllEmptyInRow(g, row, n - 1);
    }
  }

  lemma {:induction false} AllEmptyInRows(g: Grid, r: nat)
    requires IsGrid(g) && r <= Size
    requires forall r, c :: 0 <= r < Size && 0 <= c < Size ==> g[r][c] == 0
    ensures |EmptyInRows(g, r)| == r * Size
  {
    if r > 0 {
      AllEmptyInRows(g, r - 1);
      AllEmptyInRow(g, r - 1, Size);
    }
  }

  /** The board resetGame deals: two spawns on the all-zero board. */
  function NewGame(d1: Draw, d2: Draw): (g: Grid)
    requires d1.InRange() && d2.InRange()
    ensures IsGrid(g)
  {
    Spawned(Spawned(EmptyGrid(), d1), d2)
  }

  /** Two spawns on any all-zero board give the new-game board. */
  lemma DealtOnCleared(g: Grid, d1: Draw, d2: Draw)
    requires IsGrid(g) && d1.InRange() && d2.InRange()
    requires forall r, c :: 0 <= r < Size && 0 <= c < Size ==> g[r][c] == 0
    ensures Spawned(Spawned(g, d1), d2) == NewGame(d1, d2)
  {
    SameCells(g, EmptyGrid());
  }

  /**
   * Two spawns on an empty board leave exactly two non-empty cells, each
   * holding 2 or 4.
   */
  lemma NewGameHasTwoTiles(g: Grid, d1: Draw, d2: Draw)
    requires IsGrid(g) && d1.InRange() && d2.InRange()
    requires forall r, c :: 0 <= r < Size && 0 <= c < Size ==> g[r][c] == 0
    ensures |EmptyCells(Spawned(Spawned(g, d1), d2))| == Size * Size - 2
    ensures forall r, c :: 0 <= r < Size && 0 <= c < Size ==> Spawned(Spawned(g, d1), d2)[r][c] in {0, 2, 4}
  {
    AllEmptyInRows(g, Size);
    SpawnUsesOneEmptyCell(g, d1);
    var g1 := Spawned(g, d1);
    SpawnUsesOneEmptyCell(g1, d2);
    assert forall r, c :: 0 <= r < Size && 0 <= c < Size ==> g1[r][c] in {0, 2, 4};
  }

  // ---------------------------------------------------------------------------
  // The documented (but unimplemented) win and game-over conditions

  /** hasWon's documented condition: some tile has reached WIN_VALUE. */
  ghost predicate ReachedWinValue(g: Grid)
    requires IsGrid(g)
  {
    exists r, c :: 0 <= r < Size && 0 <= c < Size && g[r][c] >= WinValue
  }

  /** A new game starts below WIN_VALUE: its tiles are only 2s and 4s. */
  lemma NewGameNotWon(g: Grid, d1: Draw, d2: Draw)
    requires IsGrid(g) && d1.InRange() && d2.InRange()
    requires forall r, c :: 0 <= r < Size && 0 <= c < Size ==> g[r][c] == 0
    ensures !ReachedWinValue(Spawned(Spawned(g, d1), d2))
  {
    NewGameHasTwoTiles(g, d1, d2);
  }

  /** A spawn only fills an empty cell, so a board that has won stays won. */
  lemma SpawnKeepsWin(g: Grid, d: Draw)
    requires IsGrid(g) && d.InRange() && ReachedWinValue(g)
    ensures ReachedWinValue(Spawned(g, d))
  {
    var r, c :| 0 <= r < Size && 0 <= c < Size && g[r][c] >= WinValue;
    if Full(g) {
      SpawnOnFullBoard(g, d);
    } else {
      SpawnFillsOneEmptyCell(g, d);
      var cell :| OnBoard(cell) && g[cell.row][cell.col] == 0
        && Spawned(g, d)[cell.row][cell.col] in {2, 4}
        && forall r', c' :: 0 <= r' < Size && 0 <= c' < Size && Cell(r', c') != cell ==> Spawned(g, d)[r'][c'] == g[r'][c'];
      assert Cell(r, c) != cell;
      assert Spawned(g, d)[r][c] >= WinValue;
    }
  }

  /**
   * isGameOver's documented condition: no empty cell and no two equal
   * neighbouring tiles in any row or column.
   */
  ghost predicate NoMovesLeft(g: Grid)
    requires IsGrid(g)
  {
    Full(g)
    && (forall r :: 0 <= r < Size ==> !HasEqualNeighbours(g[r]))
    && (forall c :: 0 <= c < Size ==> !HasEqualNeighbours(Column(g, c)))
  }

  lemma EqualNeighboursReverse(s: seq<int>)
    ensures HasEqualNeighbours(Reverse(s)) <==> HasEqualNeighbours(s)
  {
    var n := |s|;
    if HasEqualNeighbours(s) {
      var i :| 0 <= i < n - 1 && s[i] != 0 && s[i] == s[i + 1];
      assert Reverse(s)[n - 2 - i] == s[i + 1] && Reverse(s)[n - 1 - i] == s[i];
    }
    if HasEqualNeighbours(Reverse(s)) {
      var i :| 0 <= i < n - 1 && Reverse(s)[i] != 0 && Reverse(s)[i] == Reverse(s)[i + 1];
      assert s[n - 2 - i] == Reverse(s)[i + 1] && s[n - 1 - i] == Reverse(s)[i];
    }
  }

  /** A line without empty cells stays as it is under a right move exactly when it has no equal neighbours. */
  lemma FullLineFixedRight(s: seq<int>)
    requires NoZeros(s)
    ensures SlideRight(s).line == s <==> !HasEqualNeighbours(s)
  {
    SlideRightMirrorsLeft(s);
    SlideLeftFixedIff(Reverse(s));
    EqualNeighboursReverse(s);
    assert Reverse(Reverse(s)) == s;
    var l := SlideLeft(Reverse(s)).line;
    assert Reverse(Reverse(l)) == l;
  }

  lemma FullTranspose(g: Grid)
    requires IsGrid(g) && Full(g)
    ensures Full(Transpose(g))
    ensures forall c :: 0 <= c < Size ==> Transpose(g)[c] == Column(g, c)
  {
  }

  /** On a full board, left and right moves change nothing exactly when no row has equal neighbours. */
  lemma FullRowsFixedIff(g: Grid)
    requires IsGrid(g) && Full(g)
    ensures MoveLeftGrid(g).grid == g <==> forall r :: 0 <= r < Size ==> !HasEqualNeighbours(g[r])
    ensures MoveRightGrid(g).grid == g <==> forall r :: 0 <= r < Size ==> !HasEqualNeighbours(g[r])
  {
    forall r | 0 <= r < Size
      ensures SlideLeft(g[r]).line == g[r] <==> !HasEqualNeighbours(g[r])
      ensures SlideRight(g[r]).line == g[r] <==> !HasEqualNeighbours(g[r])
    {
      assert NoZeros(g[r]);
      SlideLeftFixedIff(g[r]);
      FullLineFixedRight(g[r]);
    }
    var left := MoveLeftGrid(g).grid;
    var right := MoveRightGrid(g).grid;
    assert left == g <==> forall r :: 0 <= r < Size ==> left[r] == g[r];
    assert right == g <==> forall r :: 0 <= r < Size ==> right[r] == g[r];
  }

  /** Up and down change a board exactly when left and right change its transpose. */
  lemma ColumnMovesFixedIff(g: Grid)
    requires IsGrid(g)
    ensures MoveUpGrid(g).grid == g <==> MoveLeftGrid(Transpose(g)).grid == Transpose(g)
    ensures MoveDownGrid(g).grid == g <==> MoveRightGrid(Transpose(g)).grid == Transpose(g)
  {
    var t := Transpose(g);
    TransposeTwice(g);
    TransposeTwice(MoveLeftGrid(t).grid);
    TransposeTwice(MoveRightGrid(t).grid);
  }

  /**
   * On a board without an empty cell, the documented game-over condition holds
   * exactly when none of the four moves would change a cell.
   */
  lemma NoMovesLeftIff(g: Grid)
    requires IsGrid(g) && Full(g)
    ensures NoMovesLeft(g) <==>
      MoveLeftGrid(g).grid == g && MoveRightGrid(g).grid == g
      && MoveUpGrid(g).grid == g && MoveDownGrid(g).grid == g
  {
    FullRowsFixedIff(g);
    FullTranspose(g);
    FullRowsFixedIff(Transpose(g));
    ColumnMovesFixedIff(g);
  }
}
