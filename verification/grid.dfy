/**
 * The scrolling grid engine: a fixed matrix of optional cells that scrolls
 * down one pixel step per tick, drops its bottom row and generates a new top
 * row for every whole cell scrolled, and lays a single finish line once enough
 * rows have gone by.
 *
 * The random engine is an injected stream of integer draws owned by the map;
 * `drawn` counts the draws taken so far, front to back. A draw `d` picks the guaranteed-safe column
 * `d % GRID_COLS` and a percentage roll `d % 100 + 1`, so every draw lands in
 * the range its distribution has.
 */
module Grid {
  import opened Wrappers
  import opened Constants
  import opened Entities

  type Row = seq<Option<Cell>>

  /** GRID_ROWS + BUFFER_ROWS. */
  const TOTAL_ROWS := 27
  const INITIAL_DIFFICULTY := 1
  /** A roll above this places a coin in a column that got no obstacle. */
  const COIN_THRESHOLD := 85
  /** Most draws one generated row consumes: the safe column, then two rolls per column. */
  const DRAWS_PER_ROW := 43

  lemma DimensionsAgree()
    ensures TOTAL_ROWS == GRID_ROWS + BUFFER_ROWS
    ensures DRAWS_PER_ROW == 1 + 2 * GRID_COLS
  {
  }

  datatype GameMap = GameMap(
    grid: seq<Row>,
    scrollOffset: int,
    scrolledRows: int,
    difficultyLevel: int,
    finishLineGenerated: bool,
    rng: seq<int>,
    drawn: nat)

  // ------------------------------------------------------------ row shapes

  predicate WellShaped(g: seq<Row>)
  {
    |g| == TOTAL_ROWS && forall i :: 0 <= i < |g| ==> |g[i]| == GRID_COLS
  }

  predicate IsObstacle(slot: Option<Cell>)
  {
    slot.Some? && slot.value.kind == Obstacle
  }

  predicate IsEmptyRow(row: Row)
  {
    forall c :: 0 <= c < |row| ==> row[c].None?
  }

  /** Every column holds a FINISH cell. */
  predicate IsFinishRow(row: Row)
  {
    |row| > 0 && forall c :: 0 <= c < |row| ==> row[c].Some? && row[c].value.kind == Finish
  }

  /**
   * A row of ordinary content: only obstacles and coins, and at least one
   * column with no cell at all, so the player has a way through.
   */
  predicate IsOrdinaryRow(row: Row)
  {
    && (forall c :: 0 <= c < |row| && row[c].Some? ==> (row[c].value.kind == Obstacle || row[c].value.kind == Coin))
    && exists c :: 0 <= c < |row| && row[c].None?
  }

  /** Every row is either ordinary or a finish line. */
  predicate RowsWellFormed(g: seq<Row>)
  {
    forall i :: 0 <= i < |g| ==> IsFinishRow(g[i]) || IsOrdinaryRow(g[i])
  }

  /** No two rows are finish lines. */
  predicate AtMostOneFinish(g: seq<Row>)
  {
    forall i, j :: 0 <= i < |g| && 0 <= j < |g| && IsFinishRow(g[i]) && IsFinishRow(g[j]) ==> i == j
  }

  predicate NoFinishRow(g: seq<Row>)
  {
    forall i :: 0 <= i < |g| ==> !IsFinishRow(g[i])
  }

  /**
   * The map's invariant: fixed dimensions, offset within one cell, every row
   * either ordinary or a finish line, at most one finish line in the grid, and
   * none before the finish flag is set.
   */
  predicate Valid(m: GameMap)
  {
    && WellShaped(m.grid)
    && 0 <= m.scrollOffset < GRID_SIZE
    && m.scrolledRows >= 0
    && m.drawn <= |m.rng|
    && RowsWellFormed(m.grid)
    && AtMostOneFinish(m.grid)
    && (!m.finishLineGenerated ==> NoFinishRow(m.grid))
  }

  // ------------------------------------------------------------ random draws

  /** The guaranteed-safe column a draw selects. */
  function SafeColumnDraw(d: int): (c: int)
    ensures 0 <= c < GRID_COLS
  {
    d % GRID_COLS
  }

  /** The percentage roll, in [1, 100], a draw selects. */
  function PercentDraw(d: int): (r: int)
    ensures 1 <= r <= 100
  {
    d % 100 + 1
  }

  /** Draws of the stream not taken yet. */
  function Remaining(m: GameMap): int
  {
    |m.rng| - m.drawn
  }

  /** `m'` took at most `most` further draws from the same stream as `m`. */
  predicate DrewAtMost(m: GameMap, m': GameMap, most: int)
  {
    m'.rng == m.rng && m.drawn <= m'.drawn <= m.drawn + most
  }

  // ------------------------------------------------------------ generation

  /**
   * A roll above this places an obstacle: it starts at 95, drops by 3 per
   * difficulty level, and rises by 10 over an obstacle in the row below.
   */
  function ObstacleThreshold(difficulty: int, obstacleBelow: bool): (t: int)
    ensures difficulty == INITIAL_DIFFICULTY ==> t == if obstacleBelow then 102 else 92
    ensures difficulty <= INITIAL_DIFFICULTY && obstacleBelow ==> t > 100
  {
    95 - difficulty * 3 + (if obstacleBelow then 10 else 0)
  }

  /** At the initial difficulty no roll beats the threshold over an obstacle. */
  lemma NoRollBeatsRaisedThreshold(difficulty: int, roll: int)
    requires difficulty <= INITIAL_DIFFICULTY && roll <= 100
    ensures !(roll > ObstacleThreshold(difficulty, true))
  {
  }

  /**
   * The kind chosen for one column and how many draws it used. The safe
   * column takes no draw; another column takes an obstacle roll and, only if
   * that places no obstacle, a coin roll.
   */
  function ColumnKind(col: int, safe: int, obstacleBelow: bool, difficulty: int, first: int, second: int): (r: (CellType, nat))
    ensures r.0 != Finish && r.1 <= 2
    ensures col == safe ==> r == (Empty, 0)
    ensures r.0 == Obstacle <==> col != safe && PercentDraw(first) > ObstacleThreshold(difficulty, obstacleBelow)
    ensures r.0 == Coin <==>
      col != safe && PercentDraw(first) <= ObstacleThreshold(difficulty, obstacleBelow) && PercentDraw(second) > COIN_THRESHOLD
    ensures col != safe ==> r.1 == if r.0 == Obstacle then 1 else 2
  {
    if col == safe then (Empty, 0)
    else if PercentDraw(first) > ObstacleThreshold(difficulty, obstacleBelow) then (Obstacle, 1)
    else if PercentDraw(second) > COIN_THRESHOLD then (Coin, 2)
    else (Empty, 2)
  }

  /**
   * Kinds for the columns 0 .. |below|-1, left to right, drawing from `rng`
   * at position `pos`, and the position after the last draw taken. `below`
   * says which columns of the row underneath hold an obstacle.
   */
  function RowKinds(safe: int, below: seq<bool>, difficulty: int, rng: seq<int>, pos: nat): (r: (seq<CellType>, nat))
    requires pos + 2 * |below| <= |rng|
    decreases |below|
    ensures |r.0| == |below|
    ensures pos <= r.1 <= pos + 2 * |below|
    ensures forall i :: 0 <= i < |r.0| ==> r.0[i] != Finish
    ensures 0 <= safe < |below| ==> r.0[safe] == Empty
    ensures forall i :: 0 <= i < |r.0| && r.0[i] == Obstacle ==> ObstacleThreshold(difficulty, below[i]) < 100
  {
    if |below| == 0 then ([], pos)
    else
      var col := |below| - 1;
      var left := RowKinds(safe, below[..col], difficulty, rng, pos);
      var (kind, used) := ColumnKind(col, safe, below[col], difficulty, rng[left.1], rng[left.1 + 1]);
      (left.0 + [kind], left.1 + used)
  }

  /** Which columns of `row` hold an obstacle. */
  function ObstacleMask(row: Row): (mask: seq<bool>)
    ensures |mask| == |row|
    ensures forall c :: 0 <= c < |row| ==> (mask[c] <==> IsObstacle(row[c]))
  {
    seq(|row|, c requires 0 <= c < |row| => IsObstacle(row[c]))
  }

  /** The finish line is due: not laid yet, more than MAX_ROWS shifts done, and the top row is being filled. */
  predicate FinishDue(m: GameMap, rowIndex: int)
  {
    !m.finishLineGenerated && m.scrolledRows > MAX_ROWS && rowIndex == 0
  }

  /** A finish line at row `rowIndex`: a FINISH cell in every column. */
  function FinishRow(rowIndex: int): (row: Row)
    ensures |row| == GRID_COLS && IsFinishRow(row)
    ensures forall c :: 0 <= c < GRID_COLS ==> row[c] == Some(NewCell(Finish, c * GRID_SIZE, rowIndex * GRID_SIZE, GRID_SIZE, GRID_SIZE))
  {
    seq(GRID_COLS, c => Some(NewCell(Finish, c * GRID_SIZE, rowIndex * GRID_SIZE, GRID_SIZE, GRID_SIZE)))
  }

  /** Writes the cells of `kinds` that are not EMPTY into `row`; other slots keep what they held. */
  function PlaceCells(row: Row, kinds: seq<CellType>, rowIndex: int): (row': Row)
    requires |row| == |kinds|
    ensures |row'| == |row|
    ensures forall c :: 0 <= c < |row| ==>
      row'[c] == if kinds[c] != Empty then Some(NewCell(kinds[c], c * GRID_SIZE, rowIndex * GRID_SIZE, GRID_SIZE, GRID_SIZE)) else row[c]
  {
    seq(|row|, c requires 0 <= c < |row| =>
      if kinds[c] != Empty then Some(NewCell(kinds[c], c * GRID_SIZE, rowIndex * GRID_SIZE, GRID_SIZE, GRID_SIZE)) else row[c])
  }

  /** Over an empty row, the placed row holds exactly the non-EMPTY kinds. */
  lemma PlacedOnEmptyRow(row: Row, kinds: seq<CellType>, rowIndex: int)
    requires |row| == |kinds| && IsEmptyRow(row)
    ensures var row' := PlaceCells(row, kinds, rowIndex);
      forall c :: 0 <= c < |row'| ==>
        && (row'[c].None? <==> kinds[c] == Empty)
        && (row'[c].Some? ==> row'[c].value.kind == kinds[c])
  {
  }

  /** A row placed over an empty one from kinds with no FINISH and an EMPTY safe column is ordinary. */
  lemma PlacedRowIsOrdinary(row: Row, kinds: seq<CellType>, rowIndex: int, safe: int)
    requires |row| == |kinds| && IsEmptyRow(row) && 0 <= safe < |kinds|
    requires forall c :: 0 <= c < |kinds| ==> kinds[c] != Finish
    requires kinds[safe] == Empty
    ensures IsOrdinaryRow(PlaceCells(row, kinds, rowIndex))
  {
    PlacedOnEmptyRow(row, kinds, rowIndex);
    assert PlaceCells(row, kinds, rowIndex)[safe].None?;
  }

  /**
   * Kinds drawn against the obstacle mask of the row below, at difficulty at
   * most 1, never put an obstacle directly above an obstacle.
   */
  lemma PlacedNoStacking(row: Row, kinds: seq<CellType>, rowIndex: int, below: seq<bool>, rowBelow: Row, difficulty: int)
    requires |row| == |kinds| == |below| == |rowBelow| && IsEmptyRow(row)
    requires forall c :: 0 <= c < |below| ==> (below[c] <==> IsObstacle(rowBelow[c]))
    requires forall c :: 0 <= c < |kinds| && kinds[c] == Obstacle ==> ObstacleThreshold(difficulty, below[c]) < 100
    requires difficulty <= INITIAL_DIFFICULTY
    ensures forall c :: 0 <= c < |row| && IsObstacle(rowBelow[c]) ==> !IsObstacle(PlaceCells(row, kinds, rowIndex)[c])
  {
    PlacedOnEmptyRow(row, kinds, rowIndex);
  }

  /** Obstacles in the row below, or none when there is no row below. */
  function BelowMask(g: seq<Row>, rowIndex: int): (mask: seq<bool>)
    requires WellShaped(g) && 0 <= rowIndex < TOTAL_ROWS
    ensures |mask| == GRID_COLS
    ensures rowIndex + 1 < TOTAL_ROWS ==> forall c :: 0 <= c < GRID_COLS ==> (mask[c] <==> IsObstacle(g[rowIndex + 1][c]))
  {
    if rowIndex < TOTAL_ROWS - 1 then ObstacleMask(g[rowIndex + 1]) else ObstacleMask(EmptyRow())
  }

  /**
   * The ordinary fill of row `rowIndex`: one draw for the guaranteed-safe
   * column, then the columns left to right, each looking at the same column of
   * the row below (when there is one) for an obstacle.
   */
  function OrdinaryFill(g: seq<Row>, rowIndex: int, difficulty: int, rng: seq<int>, pos: nat): (r: (Row, nat))
    requires WellShaped(g) && 0 <= rowIndex < TOTAL_ROWS
    requires pos + DRAWS_PER_ROW <= |rng|
    ensures |r.0| == GRID_COLS
    ensures pos < r.1 <= pos + DRAWS_PER_ROW
  {
    var safe := SafeColumnDraw(rng[pos]);
    var kr := RowKinds(safe, BelowMask(g, rowIndex), difficulty, rng, pos + 1);
    (PlaceCells(g[rowIndex], kr.0, rowIndex), kr.1)
  }

  /** Filled into an empty row, the ordinary fill leaves the safe column open and lays only obstacles and coins. */
  lemma OrdinaryFillIsOrdinary(g: seq<Row>, rowIndex: int, difficulty: int, rng: seq<int>, pos: nat)
    requires WellShaped(g) && 0 <= rowIndex < TOTAL_ROWS
    requires pos + DRAWS_PER_ROW <= |rng|
    requires IsEmptyRow(g[rowIndex])
    ensures IsOrdinaryRow(OrdinaryFill(g, rowIndex, difficulty, rng, pos).0)
  {
    var safe := SafeColumnDraw(rng[pos]);
    var kr := RowKinds(safe, BelowMask(g, rowIndex), difficulty, rng, pos + 1);
    PlacedRowIsOrdinary(g[rowIndex], kr.0, rowIndex, safe);
  }

  /** Filled into an empty row at difficulty at most 1, no obstacle lands directly above one in the row below. */
  lemma OrdinaryFillNoStacking(g: seq<Row>, rowIndex: int, difficulty: int, rng: seq<int>, pos: nat)
    requires WellShaped(g) && 0 <= rowIndex < TOTAL_ROWS - 1
    requires pos + DRAWS_PER_ROW <= |rng|
    requires IsEmptyRow(g[rowIndex]) && difficulty <= INITIAL_DIFFICULTY
    ensures forall c :: 0 <= c < GRID_COLS && IsObstacle(g[rowIndex + 1][c]) ==>
      !IsObstacle(OrdinaryFill(g, rowIndex, difficulty, rng, pos).0[c])
  {
    var below := BelowMask(g, rowIndex);
    var safe := SafeColumnDraw(rng[pos]);
    var kr := RowKinds(safe, below, difficulty, rng, pos + 1);
    PlacedNoStacking(g[rowIndex], kr.0, rowIndex, below, g[rowIndex + 1], difficulty);
  }

  /**
   * GameMap::generateRow. Lays the finish line when it is due; otherwise fills
   * the row from the draws. Only that row, the finish flag and the draw
   * position change.
   */
  function GenerateRow(m: GameMap, rowIndex: int): (m': GameMap)
    requires WellShaped(m.grid) && 0 <= rowIndex < TOTAL_ROWS
    requires Remaining(m) >= DRAWS_PER_ROW
    ensures WellShaped(m'.grid)
    ensures m'.grid == m.grid[rowIndex := m'.grid[rowIndex]]
    ensures m' == m.(grid := m'.grid, finishLineGenerated := m'.finishLineGenerated, drawn := m'.drawn)
    ensures m'.finishLineGenerated == (m.finishLineGenerated || FinishDue(m, rowIndex))
    ensures DrewAtMost(m, m', DRAWS_PER_ROW)
  {
    if FinishDue(m, rowIndex) then
      m.(grid := m.grid[rowIndex := FinishRow(rowIndex)], finishLineGenerated := true)
    else
      var fill := OrdinaryFill(m.grid, rowIndex, m.difficultyLevel, m.rng, m.drawn);
      m.(grid := m.grid[rowIndex := fill.0], drawn := fill.1)
  }

  /** When the finish line is due, the generated row is a finish line and no draw is taken. */
  lemma GenerateRowFinish(m: GameMap, rowIndex: int)
    requires WellShaped(m.grid) && 0 <= rowIndex < TOTAL_ROWS
    requires Remaining(m) >= DRAWS_PER_ROW
    requires FinishDue(m, rowIndex)
    ensures IsFinishRow(GenerateRow(m, rowIndex).grid[rowIndex]) && GenerateRow(m, rowIndex).drawn == m.drawn
  {
  }

  /** Otherwise, generated into an empty row, the row is ordinary. */
  lemma GenerateRowOrdinary(m: GameMap, rowIndex: int)
    requires WellShaped(m.grid) && 0 <= rowIndex < TOTAL_ROWS
    requires Remaining(m) >= DRAWS_PER_ROW
    requires !FinishDue(m, rowIndex) && IsEmptyRow(m.grid[rowIndex])
    ensures IsOrdinaryRow(GenerateRow(m, rowIndex).grid[rowIndex])
  {
    OrdinaryFillIsOrdinary(m.grid, rowIndex, m.difficultyLevel, m.rng, m.drawn);
  }

  /** ... and at difficulty at most 1 it puts no obstacle directly above one in the row below. */
  lemma GenerateRowNoStacking(m: GameMap, rowIndex: int)
    requires WellShaped(m.grid) && 0 <= rowIndex < TOTAL_ROWS - 1
    requires Remaining(m) >= DRAWS_PER_ROW
    requires !FinishDue(m, rowIndex) && IsEmptyRow(m.grid[rowIndex]) && m.difficultyLevel <= INITIAL_DIFFICULTY
    ensures forall c :: 0 <= c < GRID_COLS && IsObstacle(m.grid[rowIndex + 1][c]) ==>
      !IsObstacle(GenerateRow(m, rowIndex).grid[rowIndex][c])
  {
    OrdinaryFillNoStacking(m.grid, rowIndex, m.difficultyLevel, m.rng, m.drawn);
  }

  /** A row with no cell in any column. */
  function EmptyRow(): (row: Row)
    ensures |row| == GRID_COLS && IsEmptyRow(row) && IsOrdinaryRow(row)
  {
    var row: Row := seq(GRID_COLS, c => None);
    assert row[0].None?;
    row
  }

  /** An ordinary row has an open column, so it is not a finish line. */
  lemma OrdinaryIsNotFinish(row: Row)
    requires IsOrdinaryRow(row)
    ensures !IsFinishRow(row)
  {
    var c :| 0 <= c < |row| && row[c].None?;
  }

  /** The grid with every row moved down by one and an empty row on top. */
  function ShiftedGrid(g: seq<Row>): (g': seq<Row>)
    requires WellShaped(g)
    ensures WellShaped(g') && IsEmptyRow(g'[0])
    ensures forall i :: 1 <= i < TOTAL_ROWS ==> g'[i] == g[i - 1]
  {
    [EmptyRow()] + g[..TOTAL_ROWS - 1]
  }

  /**
   * The invariant survives moving every row down by one when the new top row
   * is well formed and is a finish line only if none was laid before.
   */
  lemma ShiftedGridValid(m: GameMap, m': GameMap)
    requires Valid(m) && WellShaped(m'.grid)
    requires forall i :: 1 <= i < TOTAL_ROWS ==> m'.grid[i] == m.grid[i - 1]
    requires IsFinishRow(m'.grid[0]) || IsOrdinaryRow(m'.grid[0])
    requires IsFinishRow(m'.grid[0]) ==> !m.finishLineGenerated && m'.finishLineGenerated
    requires m.finishLineGenerated ==> m'.finishLineGenerated
    requires m'.scrollOffset == m.scrollOffset && m'.scrolledRows == m.scrolledRows
    requires m'.drawn <= |m'.rng|
    ensures Valid(m')
  {
    forall i | 0 <= i < TOTAL_ROWS
      ensures IsFinishRow(m'.grid[i]) || IsOrdinaryRow(m'.grid[i])
    {
      if i > 0 { assert m'.grid[i] == m.grid[i - 1]; }
    }
    if IsFinishRow(m'.grid[0]) {
      forall k | 1 <= k < TOTAL_ROWS
        ensures !IsFinishRow(m'.grid[k])
      {
        assert m'.grid[k] == m.grid[k - 1];
      }
    }
    forall i, j | 0 <= i < TOTAL_ROWS && 0 <= j < TOTAL_ROWS && IsFinishRow(m'.grid[i]) && IsFinishRow(m'.grid[j])
      ensures i == j
    {
      if i > 0 && j > 0 {
        assert IsFinishRow(m.grid[i - 1]) && IsFinishRow(m.grid[j - 1]);
      }
    }
    if !m'.finishLineGenerated {
      forall i | 0 <= i < TOTAL_ROWS
        ensures !IsFinishRow(m'.grid[i])
      {
        if i > 0 { assert m'.grid[i] == m.grid[i - 1]; }
      }
    }
  }

  /** The map with its rows moved down and an empty row on top, before the top row is generated. */
  function MoveRowsDown(m: GameMap): (m1: GameMap)
    requires WellShaped(m.grid)
    ensures WellShaped(m1.grid) && IsEmptyRow(m1.grid[0])
    ensures m1 == m.(grid := m1.grid)
  {
    m.(grid := ShiftedGrid(m.grid))
  }

  /** Generating the new top row leaves the moved rows where they are. */
  lemma ShiftedRowsMoved(m: GameMap)
    requires Valid(m) && Remaining(m) >= DRAWS_PER_ROW
    ensures var m' := GenerateRow(MoveRowsDown(m), 0);
      forall i :: 1 <= i < TOTAL_ROWS ==> m'.grid[i] == m.grid[i - 1]
  {
    var m1 := MoveRowsDown(m);
    var m' := GenerateRow(m1, 0);
    forall i | 1 <= i < TOTAL_ROWS
      ensures m'.grid[i] == m.grid[i - 1]
    {
      assert m'.grid[i] == m1.grid[i];
    }
  }

  /** The new top row is the finish line exactly when it is due, and is ordinary otherwise. */
  lemma ShiftedTopRow(m: GameMap)
    requires Valid(m) && Remaining(m) >= DRAWS_PER_ROW
    ensures var m' := GenerateRow(MoveRowsDown(m), 0);
      && (IsFinishRow(m'.grid[0]) <==> FinishDue(m, 0))
      && (IsFinishRow(m'.grid[0]) || IsOrdinaryRow(m'.grid[0]))
      && m'.finishLineGenerated == (m.finishLineGenerated || FinishDue(m, 0))
  {
    var m1 := MoveRowsDown(m);
    var m' := GenerateRow(m1, 0);
    assert FinishDue(m1, 0) == FinishDue(m, 0);
    if FinishDue(m, 0) {
      GenerateRowFinish(m1, 0);
    } else {
      GenerateRowOrdinary(m1, 0);
      OrdinaryIsNotFinish(m'.grid[0]);
    }
  }

  /** With difficulty at most 1, no new obstacle sits directly on one in the row it pushed down. */
  lemma ShiftedTopNoStacking(m: GameMap)
    requires Valid(m) && Remaining(m) >= DRAWS_PER_ROW && m.difficultyLevel <= INITIAL_DIFFICULTY
    ensures var m' := GenerateRow(MoveRowsDown(m), 0);
      forall c :: 0 <= c < GRID_COLS && IsObstacle(m.grid[0][c]) ==> !IsObstacle(m'.grid[0][c])
  {
    var m1 := MoveRowsDown(m);
    assert m1.grid[1] == m.grid[0];
    if FinishDue(m, 0) {
      assert FinishDue(m1, 0);
      GenerateRowFinish(m1, 0);
    } else {
      GenerateRowNoStacking(m1, 0);
    }
  }

  /**
   * GameMap::shiftRowsDown: the bottom row is dropped, every other row moves
   * down by one, and a freshly generated row enters at the top.
   */
  function ShiftRowsDown(m: GameMap): (m': GameMap)
    requires Valid(m) && Remaining(m) >= DRAWS_PER_ROW
    ensures Valid(m')
    ensures forall i :: 1 <= i < TOTAL_ROWS ==> m'.grid[i] == m.grid[i - 1]
    ensures IsFinishRow(m'.grid[0]) <==> FinishDue(m, 0)
    ensures m.difficultyLevel <= INITIAL_DIFFICULTY ==>
      forall c :: 0 <= c < GRID_COLS && IsObstacle(m.grid[0][c]) ==> !IsObstacle(m'.grid[0][c])
    ensures m'.finishLineGenerated == (m.finishLineGenerated || FinishDue(m, 0))
    ensures m'.scrollOffset == m.scrollOffset && m'.scrolledRows == m.scrolledRows
    ensures m'.difficultyLevel == m.difficultyLevel
    ensures DrewAtMost(m, m', DRAWS_PER_ROW)
  {
    ShiftedRowsMoved(m);
    ShiftedTopRow(m);
    if m.difficultyLevel <= INITIAL_DIFFICULTY then
      ShiftedTopNoStacking(m);
      ShiftedGridValid(m, GenerateRow(MoveRowsDown(m), 0));
      GenerateRow(MoveRowsDown(m), 0)
    else
      ShiftedGridValid(m, GenerateRow(MoveRowsDown(m), 0));
      GenerateRow(MoveRowsDown(m), 0)
  }

  // ------------------------------------------------------------ construction

  /** Fills rows `i` .. TOTAL_ROWS-1 in order, top to bottom, as the constructor does. */
  function GenerateFrom(m: GameMap, i: nat): (m': GameMap)
    requires WellShaped(m.grid) && i <= TOTAL_ROWS
    requires Remaining(m) >= DRAWS_PER_ROW * (TOTAL_ROWS - i)
    decreases |m.grid| - i
    ensures WellShaped(m'.grid)
    ensures m'.scrollOffset == m.scrollOffset && m'.scrolledRows == m.scrolledRows
    ensures m'.difficultyLevel == m.difficultyLevel
    ensures DrewAtMost(m, m', DRAWS_PER_ROW * (TOTAL_ROWS - i))
  {
    if i == TOTAL_ROWS then m
    else GenerateFrom(GenerateRow(m, i), i + 1)
  }

  /** Filling rows `i` .. TOTAL_ROWS-1 leaves the rows above them alone. */
  lemma {:induction false} GenerateFromKeepsAbove(m: GameMap, i: nat)
    requires WellShaped(m.grid) && i <= TOTAL_ROWS
    requires Remaining(m) >= DRAWS_PER_ROW * (TOTAL_ROWS - i)
    decreases TOTAL_ROWS - i
    ensures forall j :: 0 <= j < i ==> GenerateFrom(m, i).grid[j] == m.grid[j]
  {
    if i < TOTAL_ROWS {
      var m1 := GenerateRow(m, i);
      GenerateFromKeepsAbove(m1, i + 1);
      forall j | 0 <= j < i
        ensures GenerateFrom(m, i).grid[j] == m.grid[j]
      {
        assert m1.grid[j] == m.grid[j];
      }
    }
  }

  /**
   * Filling rows `i` .. TOTAL_ROWS-1, each empty beforehand, while no finish
   * line can be due makes each of them ordinary.
   */
  lemma {:induction false} GenerateFromRows(m: GameMap, i: nat)
    requires WellShaped(m.grid) && i <= TOTAL_ROWS && m.scrolledRows <= MAX_ROWS
    requires forall j :: i <= j < TOTAL_ROWS ==> m.grid[j] == EmptyRow()
    requires Remaining(m) >= DRAWS_PER_ROW * (TOTAL_ROWS - i)
    decreases TOTAL_ROWS - i
    ensures forall j :: i <= j < TOTAL_ROWS ==> IsOrdinaryRow(GenerateFrom(m, i).grid[j])
  {
    if i < TOTAL_ROWS {
      var m1 := GenerateRow(m, i);
      GenerateRowOrdinary(m, i);
      GenerateFromRows(m1, i + 1);
      GenerateFromKeepsAbove(m1, i + 1);
      var r := GenerateFrom(m1, i + 1);
      assert GenerateFrom(m, i) == r;
      forall j | i <= j < TOTAL_ROWS
        ensures IsOrdinaryRow(r.grid[j])
      {
        if j == i {
          assert r.grid[i] == m1.grid[i];
        }
      }
    }
  }

  /** Before any finish line can be due, filling rows leaves the finish flag alone. */
  lemma {:induction false} GenerateFromKeepsFlag(m: GameMap, i: nat)
    requires WellShaped(m.grid) && i <= TOTAL_ROWS && m.scrolledRows <= MAX_ROWS
    requires Remaining(m) >= DRAWS_PER_ROW * (TOTAL_ROWS - i)
    decreases TOTAL_ROWS - i
    ensures GenerateFrom(m, i).finishLineGenerated == m.finishLineGenerated
  {
    if i < TOTAL_ROWS {
      GenerateFromKeepsFlag(GenerateRow(m, i), i + 1);
    }
  }

  /** A map whose rows are all ordinary, with no finish flag, satisfies the invariant. */
  lemma AllOrdinaryValid(m: GameMap)
    requires WellShaped(m.grid) && 0 <= m.scrollOffset < GRID_SIZE && m.scrolledRows >= 0 && m.drawn <= |m.rng|
    requires forall j :: 0 <= j < TOTAL_ROWS ==> IsOrdinaryRow(m.grid[j])
    ensures Valid(m)
  {
    forall j | 0 <= j < TOTAL_ROWS
      ensures !IsFinishRow(m.grid[j])
    {
      OrdinaryIsNotFinish(m.grid[j]);
    }
  }

  /** `n` empty rows. */
  function EmptyGrid(n: nat): (g: seq<Row>)
    ensures |g| == n && forall i :: 0 <= i < n ==> g[i] == EmptyRow()
  {
    seq(n, i => EmptyRow())
  }

  /**
   * GameMap::GameMap: a grid of TOTAL_ROWS empty rows, every row then
   * generated, no scroll, no shifts, difficulty 1, no finish line.
   */
  function NewGameMap(draws: seq<int>): (m: GameMap)
    requires |draws| >= DRAWS_PER_ROW * TOTAL_ROWS
    ensures Valid(m)
    ensures |m.grid| == TOTAL_ROWS && forall i :: 0 <= i < TOTAL_ROWS ==> |m.grid[i]| == GRID_COLS
    ensures m.scrollOffset == 0 && m.scrolledRows == 0
    ensures !m.finishLineGenerated && m.difficultyLevel == INITIAL_DIFFICULTY
    ensures forall i :: 0 <= i < TOTAL_ROWS ==> IsOrdinaryRow(m.grid[i])
    ensures m.rng == draws && m.drawn <= DRAWS_PER_ROW * TOTAL_ROWS
  {
    var empty := EmptyGrid(TOTAL_ROWS);
    var m0 := GameMap(empty, 0, 0, INITIAL_DIFFICULTY, false, draws, 0);
    GenerateFromRows(m0, 0);
    GenerateFromKeepsFlag(m0, 0);
    AllOrdinaryValid(GenerateFrom(m0, 0));
    GenerateFrom(m0, 0)
  }

  // ------------------------------------------------------------ scrolling

  /** Whole cells the next update scrolls past. */
  function ShiftsDue(m: GameMap): int
  {
    (m.scrollOffset + SCROLL_SPEED) / GRID_SIZE
  }

  /** The stream holds the draws the next update may need. */
  predicate EnoughDraws(m: GameMap)
  {
    Remaining(m) >= DRAWS_PER_ROW * ShiftsDue(m)
  }

  /** `k` shifts, each followed by counting the shifted row. */
  function ShiftTimes(m: GameMap, k: nat): (m': GameMap)
    requires Valid(m) && Remaining(m) >= DRAWS_PER_ROW * k
    decreases k
    ensures Valid(m')
    ensures m'.scrolledRows == m.scrolledRows + k
    ensures forall i :: k <= i < TOTAL_ROWS ==> m'.grid[i] == m.grid[i - k]
    ensures m'.scrollOffset == m.scrollOffset && m'.difficultyLevel == m.difficultyLevel
    ensures m.finishLineGenerated ==> m'.finishLineGenerated
    ensures DrewAtMost(m, m', DRAWS_PER_ROW * k)
  {
    if k == 0 then m
    else
      var m1 := ShiftRowsDown(m);
      var m2 := m1.(scrolledRows := m1.scrolledRows + 1);
      ShiftTimes(m2, k - 1)
  }

  /**
   * GameMap::update: scroll by SCROLL_SPEED; once a whole cell has gone by,
   * keep only the remainder of the offset and shift once per whole cell.
   */
  function Update(m: GameMap): (m': GameMap)
    requires Valid(m) && EnoughDraws(m)
    ensures Valid(m')
    ensures m'.scrolledRows == m.scrolledRows + (m.scrollOffset + SCROLL_SPEED) / GRID_SIZE
    ensures m'.scrollOffset == (m.scrollOffset + SCROLL_SPEED) % GRID_SIZE
    ensures forall i :: ShiftsDue(m) <= i < TOTAL_ROWS ==> m'.grid[i] == m.grid[i - ShiftsDue(m)]
    ensures ShiftsDue(m) == 0 ==> m'.grid == m.grid && m'.drawn == m.drawn
    ensures m'.difficultyLevel == m.difficultyLevel
    ensures m.finishLineGenerated ==> m'.finishLineGenerated
    ensures DrewAtMost(m, m', DRAWS_PER_ROW * ShiftsDue(m))
  {
    var offset := m.scrollOffset + SCROLL_SPEED;
    if offset >= GRID_SIZE then
      assert offset / GRID_SIZE == ShiftsDue(m) == 1;
      ShiftTimes(m.(scrollOffset := offset % GRID_SIZE), offset / GRID_SIZE)
    else
      m.(scrollOffset := offset)
  }

  /** The stream holds the draws for every shift `k` further updates make. */
  predicate DrawsCover(m: GameMap, k: nat)
  {
    Remaining(m) >= DRAWS_PER_ROW * ((m.scrollOffset + SCROLL_SPEED * k) / GRID_SIZE)
  }

  /** `k` consecutive updates. */
  function Run(m: GameMap, k: nat): (m': GameMap)
    requires Valid(m) && DrawsCover(m, k)
    decreases k
    ensures Valid(m')
  {
    if k == 0 then m
    else
      assert EnoughDraws(m) by {
        QuotientMonotone(m.scrollOffset + SCROLL_SPEED, m.scrollOffset + SCROLL_SPEED * k);
      }
      var m1 := Update(m);
      RunDraws(m, m1, k);
      Run(m1, k - 1)
  }

  lemma QuotientMonotone(a: int, b: int)
    requires 0 <= a <= b
    ensures a / GRID_SIZE <= b / GRID_SIZE
  {
  }

  lemma SplitQuotient(a: nat, b: nat)
    ensures (a + b) / GRID_SIZE == a / GRID_SIZE + (a % GRID_SIZE + b) / GRID_SIZE
  {
  }

  /** The draws left after one update cover the shifts of the remaining `k - 1` updates. */
  lemma RunDraws(m: GameMap, m1: GameMap, k: nat)
    requires k > 0 && 0 <= m.scrollOffset && DrawsCover(m, k)
    requires m1.scrollOffset == (m.scrollOffset + SCROLL_SPEED) % GRID_SIZE
    requires DrewAtMost(m, m1, DRAWS_PER_ROW * ShiftsDue(m))
    ensures DrawsCover(m1, k - 1)
  {
    var a := m.scrollOffset + SCROLL_SPEED;
    var b := SCROLL_SPEED * (k - 1);
    SplitQuotient(a, b);
    assert a + b == m.scrollOffset + SCROLL_SPEED * k;
    var s := a / GRID_SIZE;
    var q := (a % GRID_SIZE + b) / GRID_SIZE;
    assert DRAWS_PER_ROW * (s + q) == DRAWS_PER_ROW * s + DRAWS_PER_ROW * q;
  }

  /**
   * After `k` updates the offset and the shift count have a closed form:
   * the pixels scrolled in total, split into whole cells and remainder.
   */
  lemma {:induction false} RunClosedForm(m: GameMap, k: nat)
    requires Valid(m) && DrawsCover(m, k)
    decreases k
    ensures Run(m, k).scrolledRows == m.scrolledRows + (m.scrollOffset + SCROLL_SPEED * k) / GRID_SIZE
    ensures Run(m, k).scrollOffset == (m.scrollOffset + SCROLL_SPEED * k) % GRID_SIZE
    ensures m.scrolledRows <= Run(m, k).scrolledRows
  {
    if k > 0 {
      var m1 := Update(m);
      RunDraws(m, m1, k);
      SplitQuotient(m.scrollOffset + SCROLL_SPEED, SCROLL_SPEED * (k - 1));
      RunClosedForm(m1, k - 1);
    }
  }

  /**
   * From a cell boundary, one cell's worth of updates (GRID_SIZE / SCROLL_SPEED
   * = 20 of them) makes exactly one shift and ends on the next boundary.
   */
  lemma OneCellOfUpdatesShiftsOnce(m: GameMap, k: nat)
    requires Valid(m) && m.scrollOffset == 0 && SCROLL_SPEED * k == GRID_SIZE
    requires Remaining(m) >= DRAWS_PER_ROW
    ensures DrawsCover(m, k)
    ensures Run(m, k).scrolledRows == m.scrolledRows + 1 && Run(m, k).scrollOffset == 0
  {
    RunClosedForm(m, k);
  }
}
