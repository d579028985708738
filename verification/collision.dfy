/**
 * GameMap::checkCollision: the player's rectangle is tested against the
 * cells of a window of rows and columns around it, in row-major order. An
 * obstacle sets the result, a coin is collected for COIN_POINTS, and the
 * finish line adds FINISH_POINTS and ends the scan at once, reporting no
 * collision.
 */
module Collision {
  import opened Wrappers
  import opened CMath
  import opened Constants
  import opened Rects
  import opened Entities
  import opened Grid

  const COIN_POINTS := 10
  const FINISH_POINTS := 1000

  datatype Pos = Pos(row: int, col: int)

  predicate InGrid(p: Pos)
  {
    0 <= p.row < TOTAL_ROWS && 0 <= p.col < GRID_COLS
  }

  /** The cell's slot, or no cell when `p` is outside the grid. */
  function Slot(g: seq<Row>, p: Pos): Option<Cell>
  {
    if 0 <= p.row < |g| && 0 <= p.col < |g[p.row]| then g[p.row][p.col] else None
  }

  /** Where the cell at `p` is on screen: its grid position moved down by the scroll offset. */
  function CellRect(p: Pos, offset: int): (r: Rect)
    ensures !IsEmpty(r)
    ensures r.x == p.col * GRID_SIZE && r.y == p.row * GRID_SIZE + offset
  {
    Rect(p.col * GRID_SIZE, p.row * GRID_SIZE + offset, GRID_SIZE, GRID_SIZE)
  }

  /** A cell the scan looks at: present, active and not yet collected. */
  predicate Live(slot: Option<Cell>)
  {
    slot.Some? && slot.value.active && !slot.value.collected
  }

  /** The player touches a live cell of kind `kind` at `p`. */
  predicate Touches(g: seq<Row>, p: Pos, player: Rect, offset: int, kind: CellType)
  {
    Live(Slot(g, p)) && Slot(g, p).value.kind == kind && Intersects(player, CellRect(p, offset))
  }

  // ------------------------------------------------------------ the window

  /** Inclusive row and column bounds of the cells the scan visits. */
  datatype Window = Window(startRow: int, endRow: int, startCol: int, endCol: int)

  /**
   * The rows from the one holding the player's top edge to the one holding
   * its bottom edge, and likewise for columns, clipped to the grid. The
   * divisions truncate toward zero, as C++ does.
   */
  function ScanWindow(player: Rect, offset: int): (w: Window)
    ensures 0 <= w.startRow && w.endRow <= TOTAL_ROWS - 1
    ensures 0 <= w.startCol && w.endCol <= GRID_COLS - 1
  {
    Window(Max(0, Div(player.y - offset, GRID_SIZE)),
           Min(TOTAL_ROWS - 1, Div(player.y + player.h - offset, GRID_SIZE)),
           Max(0, Div(player.x, GRID_SIZE)),
           Min(GRID_COLS - 1, Div(player.x + player.w, GRID_SIZE)))
  }

  /** `p` comes before `q` in row-major order. */
  predicate Before(p: Pos, q: Pos)
  {
    p.row < q.row || (p.row == q.row && p.col < q.col)
  }

  predicate RowMajor(ps: seq<Pos>)
  {
    forall i, j :: 0 <= i < j < |ps| ==> Before(ps[i], ps[j])
  }

  /** Columns `c` .. `endCol` of row `r`, left to right. */
  function RowSpan(r: int, c: int, endCol: int): (ps: seq<Pos>)
    decreases endCol - c
    ensures |ps| == if c <= endCol then endCol - c + 1 else 0
    ensures forall k :: 0 <= k < |ps| ==> ps[k] == Pos(r, c + k)
  {
    if c > endCol then [] else [Pos(r, c)] + RowSpan(r, c + 1, endCol)
  }

  lemma RowSpanOrdered(r: int, c: int, endCol: int)
    ensures RowMajor(RowSpan(r, c, endCol))
    ensures forall p :: p in RowSpan(r, c, endCol) <==> p.row == r && c <= p.col <= endCol
  {
    var ps := RowSpan(r, c, endCol);
    forall p: Pos | p.row == r && c <= p.col <= endCol
      ensures p in ps
    {
      assert ps[p.col - c] == p;
    }
  }

  lemma ConcatRowMajor(a: seq<Pos>, b: seq<Pos>)
    requires RowMajor(a) && RowMajor(b)
    requires forall i, j :: 0 <= i < |a| && 0 <= j < |b| ==> Before(a[i], b[j])
    ensures RowMajor(a + b)
  {
    var s := a + b;
    forall i, j | 0 <= i < j < |s|
      ensures Before(s[i], s[j])
    {
      if j < |a| {
        assert s[i] == a[i] && s[j] == a[j];
      } else if i < |a| {
        assert s[i] == a[i] && s[j] == b[j - |a|];
      } else {
        assert s[i] == b[i - |a|] && s[j] == b[j - |a|];
      }
    }
  }

  /** Rows `r` .. `w.endRow` of the window, each left to right, top row first. */
  function Span(r: int, w: Window): (ps: seq<Pos>)
    decreases w.endRow - r
    ensures forall p :: p in ps <==> r <= p.row <= w.endRow && w.startCol <= p.col <= w.endCol
    ensures RowMajor(ps)
  {
    if r > w.endRow then []
    else
      var head := RowSpan(r, w.startCol, w.endCol);
      var tail := Span(r + 1, w);
      RowSpanOrdered(r, w.startCol, w.endCol);
      assert forall i, j :: 0 <= i < |head| && 0 <= j < |tail| ==> Before(head[i], tail[j]) by {
        forall i, j | 0 <= i < |head| && 0 <= j < |tail|
          ensures Before(head[i], tail[j])
        {
          assert head[i] in head && tail[j] in tail;
        }
      }
      ConcatRowMajor(head, tail);
      head + tail
  }

  /** The positions the scan visits, in the order it visits them. */
  function WindowCells(w: Window): (ps: seq<Pos>)
    ensures forall p :: p in ps <==> w.startRow <= p.row <= w.endRow && w.startCol <= p.col <= w.endCol
    ensures RowMajor(ps)
  {
    Span(w.startRow, w)
  }

  /** Columns per row of the window. */
  function Width(w: Window): nat
  {
    if w.startCol <= w.endCol then w.endCol - w.startCol + 1 else 0
  }

  /** One more row of the window adds one row's width of positions. */
  lemma SpanStep(r: int, w: Window)
    requires r <= w.endRow
    ensures |Span(r, w)| == Width(w) + |Span(r + 1, w)|
  {
    assert Span(r, w) == RowSpan(r, w.startCol, w.endCol) + Span(r + 1, w);
  }

  /** The arithmetic step of SpanLength: one more row of `width` positions. */
  lemma RowsTimesWidth(rows: int, width: int, rest: int, total: int)
    requires rows >= 1 && total == width + rest
    requires rest == if rows > 1 then (rows - 1) * width else 0
    ensures total == rows * width
  {
    if rows > 1 {
      assert rows * width == width + (rows - 1) * width;
    }
  }

  lemma {:induction false} SpanLength(r: int, w: Window)
    decreases w.endRow - r
    ensures |Span(r, w)| == if r <= w.endRow then (w.endRow - r + 1) * Width(w) else 0
  {
    if r <= w.endRow {
      SpanLength(r + 1, w);
      SpanStep(r, w);
      RowsTimesWidth(w.endRow - r + 1, Width(w), |Span(r + 1, w)|, |Span(r, w)|);
    }
  }

  /** A player-sized rectangle spans at most three rows ... */
  lemma RowsSpanned(top: int)
    ensures Min(TOTAL_ROWS - 1, Div(top + PLAYER_HEIGHT, GRID_SIZE)) - Max(0, Div(top, GRID_SIZE)) <= 2
  {
    if top >= 0 {
      assert top < (top / GRID_SIZE + 1) * GRID_SIZE;
      assert top + PLAYER_HEIGHT < (top / GRID_SIZE + 3) * GRID_SIZE;
    }
  }

  /** ... and at most two columns. */
  lemma ColumnsSpanned(left: int)
    ensures Min(GRID_COLS - 1, Div(left + PLAYER_WIDTH, GRID_SIZE)) - Max(0, Div(left, GRID_SIZE)) <= 1
  {
    if left >= 0 {
      assert left < (left / GRID_SIZE + 1) * GRID_SIZE;
      assert left + PLAYER_WIDTH < (left / GRID_SIZE + 2) * GRID_SIZE;
    }
  }

  /** For the player's own size the scan visits at most six cells. */
  lemma PlayerWindowSize(player: Rect, offset: int)
    requires player.w == PLAYER_WIDTH && player.h == PLAYER_HEIGHT
    ensures |WindowCells(ScanWindow(player, offset))| <= 6
  {
    var w := ScanWindow(player, offset);
    SpanLength(w.startRow, w);
    RowsSpanned(player.y - offset);
    ColumnsSpanned(player.x);
    assert w.endRow - w.startRow <= 2 && Width(w) <= 2;
    if w.startRow <= w.endRow {
      SmallProduct(w.endRow - w.startRow + 1, Width(w));
    }
  }

  lemma SmallProduct(a: int, b: int)
    requires 1 <= a <= 3 && 0 <= b <= 2
    ensures a * b <= 6
  {
  }

  /** Every position the scan visits lies in the grid, and none is visited twice. */
  lemma WindowCellsInGridAndDistinct(player: Rect, offset: int)
    ensures var ps := WindowCells(ScanWindow(player, offset));
      && (forall k :: 0 <= k < |ps| ==> InGrid(ps[k]))
      && (forall i, j :: 0 <= i < j < |ps| ==> ps[i] != ps[j])
  {
    var ps := WindowCells(ScanWindow(player, offset));
    forall k | 0 <= k < |ps|
      ensures InGrid(ps[k])
    {
      assert ps[k] in ps;
    }
    forall i, j | 0 <= i < j < |ps|
      ensures ps[i] != ps[j]
    {
      assert Before(ps[i], ps[j]);
    }
  }

  /** The window's first row is no lower than any row whose cell reaches below the player's top edge. */
  lemma StartBelowOverlap(top: int, lo: int)
    requires 0 <= lo && top < lo * GRID_SIZE + GRID_SIZE
    ensures Max(0, Div(top, GRID_SIZE)) <= lo
  {
  }

  /** The window's last row is no higher than any row whose cell starts above the player's bottom edge. */
  lemma EndAboveOverlap(bottom: int, hi: int)
    requires 0 <= hi && hi * GRID_SIZE < bottom
    ensures hi <= Div(bottom, GRID_SIZE)
  {
  }

  /**
   * The window misses nothing: every grid cell whose screen rectangle meets
   * the player's is visited.
   */
  lemma WindowCovers(player: Rect, offset: int, q: Pos)
    requires InGrid(q) && Intersects(player, CellRect(q, offset))
    ensures q in WindowCells(ScanWindow(player, offset))
  {
    var cell := CellRect(q, offset);
    assert player.y < cell.y + cell.h && cell.y < player.y + player.h;
    assert player.x < cell.x + cell.w && cell.x < player.x + player.w;
    StartBelowOverlap(player.y - offset, q.row);
    EndAboveOverlap(player.y + player.h - offset, q.row);
    StartBelowOverlap(player.x, q.col);
    EndAboveOverlap(player.x + player.w, q.col);
  }

  // ------------------------------------------------------------ the scan

  /** The slot after a coin in it was collected. */
  predicate CoinCollected(before: Option<Cell>, after: Option<Cell>)
  {
    before.Some? && before.value.kind == Coin && after == Some(Collect(before.value))
  }

  /** Marks the cell at `p` collected; every other slot is left alone. */
  function CollectAt(g: seq<Row>, p: Pos): (g': seq<Row>)
    requires Slot(g, p).Some?
    ensures |g'| == |g| && forall i :: 0 <= i < |g| ==> |g'[i]| == |g[i]|
    ensures Slot(g', p) == Some(Collect(Slot(g, p).value))
    ensures forall q :: q != p ==> Slot(g', q) == Slot(g, q)
  {
    g[p.row := g[p.row][p.col := Some(Collect(g[p.row][p.col].value))]]
  }

  /** `g'` differs from `g` at most by coins having been collected. */
  ghost predicate OnlyCollects(g: seq<Row>, g': seq<Row>)
  {
    forall q :: Slot(g', q) == Slot(g, q) || CoinCollected(Slot(g, q), Slot(g', q))
  }

  /**
   * Collecting coins creates no new touch of any kind, and leaves the
   * touches of every other kind as they were.
   */
  lemma OnlyCollectsTouches(g: seq<Row>, g': seq<Row>, p: Pos, player: Rect, offset: int)
    requires OnlyCollects(g, g')
    ensures forall kind :: Touches(g', p, player, offset, kind) ==> Touches(g, p, player, offset, kind)
    ensures forall kind :: kind != Coin ==> (Touches(g', p, player, offset, kind) <==> Touches(g, p, player, offset, kind))
  {
    assert Slot(g', p) == Slot(g, p) || CoinCollected(Slot(g, p), Slot(g', p));
  }

  datatype Scan = Scan(hit: bool, points: int, grid: seq<Row>)

  /**
   * The scan loop from the `i`-th visited position on, with the obstacle flag
   * and the points so far.
   */
  function ScanFrom(g: seq<Row>, ps: seq<Pos>, i: nat, player: Rect, offset: int, hit: bool, points: int): (r: Scan)
    requires i <= |ps|
    decreases |ps| - i
    ensures r.points >= points
    ensures |r.grid| == |g| && forall k :: 0 <= k < |g| ==> |r.grid[k]| == |g[k]|
    ensures OnlyCollects(g, r.grid)
  {
    if i == |ps| then Scan(hit, points, g)
    else
      var p := ps[i];
      if !(Live(Slot(g, p)) && Intersects(player, CellRect(p, offset))) then
        ScanFrom(g, ps, i + 1, player, offset, hit, points)
      else
        match Slot(g, p).value.kind
        case Obstacle => ScanFrom(g, ps, i + 1, player, offset, true, points)
        case Coin =>
          var g1 := CollectAt(g, p);
          var r := ScanFrom(g1, ps, i + 1, player, offset, hit, points + COIN_POINTS);
          assert OnlyCollects(g, r.grid) by {
            forall q
              ensures Slot(r.grid, q) == Slot(g, q) || CoinCollected(Slot(g, q), Slot(r.grid, q))
            {
              if q == p {
                assert Slot(r.grid, q) == Slot(g1, q) || CoinCollected(Slot(g1, q), Slot(r.grid, q));
              }
            }
          }
          r
        case Finish => Scan(false, points + FINISH_POINTS, g)
        case Empty => ScanFrom(g, ps, i + 1, player, offset, hit, points)
  }

  // ------------------------------------------------------------ reference

  /** Index of the first visited position, from `i` on, where the player touches the finish line; |ps| if none. */
  function FirstFinish(g: seq<Row>, ps: seq<Pos>, i: nat, player: Rect, offset: int): (k: nat)
    requires i <= |ps|
    decreases |ps| - i
    ensures i <= k <= |ps|
    ensures k < |ps| ==> Touches(g, ps[k], player, offset, Finish)
    ensures forall j :: i <= j < k ==> !Touches(g, ps[j], player, offset, Finish)
  {
    if i == |ps| then |ps|
    else if Touches(g, ps[i], player, offset, Finish) then i
    else FirstFinish(g, ps, i + 1, player, offset)
  }

  /** How many of the visited positions `i` .. `j`-1 have a touched coin. */
  function CoinsTouched(g: seq<Row>, ps: seq<Pos>, i: nat, j: nat, player: Rect, offset: int): (n: nat)
    requires i <= j <= |ps|
    decreases j - i
    ensures n <= j - i
  {
    if i == j then 0
    else (if Touches(g, ps[i], player, offset, Coin) then 1 else 0) + CoinsTouched(g, ps, i + 1, j, player, offset)
  }

  /** Some visited position `i` .. |ps|-1 has a touched obstacle. */
  predicate ObstacleTouched(g: seq<Row>, ps: seq<Pos>, i: nat, player: Rect, offset: int)
    requires i <= |ps|
  {
    exists k :: i <= k < |ps| && Touches(g, ps[k], player, offset, Obstacle)
  }

  /** Two grids that agree on the visited positions from `i` on. */
  predicate AgreeFrom(g: seq<Row>, g': seq<Row>, ps: seq<Pos>, i: nat)
  {
    forall k :: i <= k < |ps| ==> Slot(g, ps[k]) == Slot(g', ps[k])
  }

  /** From position `i` on, the player touches a `kind` cell in `g` exactly where it does in `g'`. */
  predicate SameTouches(g: seq<Row>, g': seq<Row>, ps: seq<Pos>, i: nat, player: Rect, offset: int, kind: CellType)
  {
    forall k :: i <= k < |ps| ==> (Touches(g, ps[k], player, offset, kind) <==> Touches(g', ps[k], player, offset, kind))
  }

  lemma AgreeSameTouches(g: seq<Row>, g': seq<Row>, ps: seq<Pos>, i: nat, player: Rect, offset: int)
    requires AgreeFrom(g, g', ps, i)
    ensures forall kind :: SameTouches(g, g', ps, i, player, offset, kind)
  {
  }

  /** Collecting the cell at a position the scan has passed changes nothing it is still to visit. */
  lemma CollectKeepsRest(g: seq<Row>, ps: seq<Pos>, i: nat, player: Rect, offset: int)
    requires i < |ps| && RowMajor(ps) && Slot(g, ps[i]).Some?
    ensures AgreeFrom(g, CollectAt(g, ps[i]), ps, i + 1)
    ensures SameTouches(g, CollectAt(g, ps[i]), ps, i + 1, player, offset, Finish)
    ensures SameTouches(g, CollectAt(g, ps[i]), ps, i + 1, player, offset, Obstacle)
    ensures SameTouches(g, CollectAt(g, ps[i]), ps, i + 1, player, offset, Coin)
  {
    forall k | i + 1 <= k < |ps|
      ensures Slot(g, ps[k]) == Slot(CollectAt(g, ps[i]), ps[k])
    {
      assert Before(ps[i], ps[k]);
    }
    AgreeSameTouches(g, CollectAt(g, ps[i]), ps, i + 1, player, offset);
  }

  lemma {:induction false} FirstFinishFrame(g: seq<Row>, g': seq<Row>, ps: seq<Pos>, i: nat, player: Rect, offset: int)
    requires i <= |ps| && SameTouches(g, g', ps, i, player, offset, Finish)
    decreases |ps| - i
    ensures FirstFinish(g, ps, i, player, offset) == FirstFinish(g', ps, i, player, offset)
  {
    if i < |ps| {
      FirstFinishFrame(g, g', ps, i + 1, player, offset);
    }
  }

  lemma {:induction false} CoinsTouchedFrame(g: seq<Row>, g': seq<Row>, ps: seq<Pos>, i: nat, j: nat, player: Rect, offset: int)
    requires i <= j <= |ps| && SameTouches(g, g', ps, i, player, offset, Coin)
    decreases j - i
    ensures CoinsTouched(g, ps, i, j, player, offset) == CoinsTouched(g', ps, i, j, player, offset)
  {
    if i < j {
      CoinsTouchedFrame(g, g', ps, i + 1, j, player, offset);
    }
  }

  lemma ObstacleTouchedFrame(g: seq<Row>, g': seq<Row>, ps: seq<Pos>, i: nat, player: Rect, offset: int)
    requires i <= |ps| && SameTouches(g, g', ps, i, player, offset, Obstacle)
    ensures ObstacleTouched(g, ps, i, player, offset) == ObstacleTouched(g', ps, i, player, offset)
  {
    if ObstacleTouched(g, ps, i, player, offset) {
      var k :| i <= k < |ps| && Touches(g, ps[k], player, offset, Obstacle);
      assert Touches(g', ps[k], player, offset, Obstacle);
    }
    if ObstacleTouched(g', ps, i, player, offset) {
      var k :| i <= k < |ps| && Touches(g', ps[k], player, offset, Obstacle);
      assert Touches(g, ps[k], player, offset, Obstacle);
    }
  }

  /** An obstacle is touched from `i` on exactly when it is touched at `i` or from `i + 1` on. */
  lemma ObstacleTouchedStep(g: seq<Row>, ps: seq<Pos>, i: nat, player: Rect, offset: int)
    requires i < |ps|
    ensures ObstacleTouched(g, ps, i, player, offset) <==>
      Touches(g, ps[i], player, offset, Obstacle) || ObstacleTouched(g, ps, i + 1, player, offset)
  {
    if ObstacleTouched(g, ps, i, player, offset) {
      var k :| i <= k < |ps| && Touches(g, ps[k], player, offset, Obstacle);
      if k > i {
        assert ObstacleTouched(g, ps, i + 1, player, offset);
      }
    }
  }

  /**
   * Without a finish line among the positions still to visit, the scan
   * reports a collision exactly when it already had one or some obstacle is
   * touched; with one, it reports none.
   */
  lemma {:induction false} ScanHitMeaning(g: seq<Row>, ps: seq<Pos>, i: nat, player: Rect, offset: int, hit: bool, points: int)
    requires i <= |ps| && RowMajor(ps)
    decreases |ps| - i
    ensures ScanFrom(g, ps, i, player, offset, hit, points).hit ==
      (FirstFinish(g, ps, i, player, offset) == |ps| && (hit || ObstacleTouched(g, ps, i, player, offset)))
  {
    if i < |ps| {
      var p := ps[i];
      ObstacleTouchedStep(g, ps, i, player, offset);
      if !(Live(Slot(g, p)) && Intersects(player, CellRect(p, offset))) {
        assert ScanFrom(g, ps, i, player, offset, hit, points) == ScanFrom(g, ps, i + 1, player, offset, hit, points);
        ScanHitMeaning(g, ps, i + 1, player, offset, hit, points);
      } else {
        match Slot(g, p).value.kind
        case Obstacle =>
          assert ScanFrom(g, ps, i, player, offset, hit, points) == ScanFrom(g, ps, i + 1, player, offset, true, points);
          ScanHitMeaning(g, ps, i + 1, player, offset, true, points);
        case Coin =>
          var g1 := CollectAt(g, p);
          assert ScanFrom(g, ps, i, player, offset, hit, points) == ScanFrom(g1, ps, i + 1, player, offset, hit, points + COIN_POINTS);
          CollectKeepsRest(g, ps, i, player, offset);
          FirstFinishFrame(g, g1, ps, i + 1, player, offset);
          ObstacleTouchedFrame(g, g1, ps, i + 1, player, offset);
          ScanHitMeaning(g1, ps, i + 1, player, offset, hit, points + COIN_POINTS);
        case Finish =>
        case Empty =>
          assert ScanFrom(g, ps, i, player, offset, hit, points) == ScanFrom(g, ps, i + 1, player, offset, hit, points);
          ScanHitMeaning(g, ps, i + 1, player, offset, hit, points);
      }
    }
  }

  /**
   * The scan adds COIN_POINTS for every coin touched before the first
   * touched finish line, and FINISH_POINTS when there is one.
   */
  lemma {:induction false} ScanPointsMeaning(g: seq<Row>, ps: seq<Pos>, i: nat, player: Rect, offset: int, hit: bool, points: int)
    requires i <= |ps| && RowMajor(ps)
    decreases |ps| - i
    ensures ScanFrom(g, ps, i, player, offset, hit, points).points == points + ScanGain(g, ps, i, player, offset)
  {
    if i < |ps| {
      var p := ps[i];
      if !(Live(Slot(g, p)) && Intersects(player, CellRect(p, offset))) {
        PassGain(g, ps, i, player, offset);
        assert ScanFrom(g, ps, i, player, offset, hit, points) == ScanFrom(g, ps, i + 1, player, offset, hit, points);
        ScanPointsMeaning(g, ps, i + 1, player, offset, hit, points);
      } else {
        match Slot(g, p).value.kind
        case Obstacle =>
          PassGain(g, ps, i, player, offset);
          assert ScanFrom(g, ps, i, player, offset, hit, points) == ScanFrom(g, ps, i + 1, player, offset, true, points);
          ScanPointsMeaning(g, ps, i + 1, player, offset, true, points);
        case Coin =>
          var g1 := CollectAt(g, p);
          CoinGain(g, ps, i, player, offset);
          assert ScanFrom(g, ps, i, player, offset, hit, points) == ScanFrom(g1, ps, i + 1, player, offset, hit, points + COIN_POINTS);
          ScanPointsMeaning(g1, ps, i + 1, player, offset, hit, points + COIN_POINTS);
        case Finish =>
          assert FirstFinish(g, ps, i, player, offset) == i;
        case Empty =>
          PassGain(g, ps, i, player, offset);
          assert ScanFrom(g, ps, i, player, offset, hit, points) == ScanFrom(g, ps, i + 1, player, offset, hit, points);
          ScanPointsMeaning(g, ps, i + 1, player, offset, hit, points);
      }
    }
  }

  /**
   * The points the scan adds from position `i` on: COIN_POINTS per coin
   * touched before the first touched finish line, and FINISH_POINTS when
   * there is one.
   */
  function ScanGain(g: seq<Row>, ps: seq<Pos>, i: nat, player: Rect, offset: int): int
    requires i <= |ps|
  {
    var stop := FirstFinish(g, ps, i, player, offset);
    COIN_POINTS * CoinsTouched(g, ps, i, stop, player, offset) + (if stop < |ps| then FINISH_POINTS else 0)
  }

  /** A position with neither a touched coin nor a touched finish line adds nothing. */
  lemma PassGain(g: seq<Row>, ps: seq<Pos>, i: nat, player: Rect, offset: int)
    requires i < |ps|
    requires !Touches(g, ps[i], player, offset, Coin) && !Touches(g, ps[i], player, offset, Finish)
    ensures ScanGain(g, ps, i, player, offset) == ScanGain(g, ps, i + 1, player, offset)
  {
    var stop := FirstFinish(g, ps, i + 1, player, offset);
    assert FirstFinish(g, ps, i, player, offset) == stop;
    assert CoinsTouched(g, ps, i, stop, player, offset) == CoinsTouched(g, ps, i + 1, stop, player, offset);
  }

  /** A touched coin adds COIN_POINTS, and collecting it leaves the rest of the gain alone. */
  lemma CoinGain(g: seq<Row>, ps: seq<Pos>, i: nat, player: Rect, offset: int)
    requires i < |ps| && RowMajor(ps)
    requires Touches(g, ps[i], player, offset, Coin)
    ensures ScanGain(g, ps, i, player, offset) == COIN_POINTS + ScanGain(CollectAt(g, ps[i]), ps, i + 1, player, offset)
  {
    var g1 := CollectAt(g, ps[i]);
    var stop := FirstFinish(g, ps, i + 1, player, offset);
    assert FirstFinish(g, ps, i, player, offset) == stop;
    assert CoinsTouched(g, ps, i, stop, player, offset) == 1 + CoinsTouched(g, ps, i + 1, stop, player, offset);
    CollectKeepsRest(g, ps, i, player, offset);
    FirstFinishFrame(g, g1, ps, i + 1, player, offset);
    CoinsTouchedFrame(g, g1, ps, i + 1, stop, player, offset);
  }

  /** Coin collection keeps the finish and obstacle touches of every visited position. */
  lemma OnlyCollectsSameTouches(g: seq<Row>, g': seq<Row>, ps: seq<Pos>, i: nat, player: Rect, offset: int)
    requires OnlyCollects(g, g')
    ensures SameTouches(g, g', ps, i, player, offset, Finish)
    ensures SameTouches(g, g', ps, i, player, offset, Obstacle)
  {
    forall k | i <= k < |ps|
      ensures Touches(g, ps[k], player, offset, Finish) <==> Touches(g', ps[k], player, offset, Finish)
      ensures Touches(g, ps[k], player, offset, Obstacle) <==> Touches(g', ps[k], player, offset, Obstacle)
    {
      OnlyCollectsTouches(g, g', ps[k], player, offset);
    }
  }

  /** No touched coin among positions `i` .. `j`-1 means none is counted. */
  lemma {:induction false} NoCoinsTouched(g: seq<Row>, ps: seq<Pos>, i: nat, j: nat, player: Rect, offset: int)
    requires i <= j <= |ps|
    requires forall k :: i <= k < j ==> !Touches(g, ps[k], player, offset, Coin)
    decreases j - i
    ensures CoinsTouched(g, ps, i, j, player, offset) == 0
  {
    if i < j {
      NoCoinsTouched(g, ps, i + 1, j, player, offset);
    }
  }

  /**
   * After the scan no coin is left for the player to touch at any position
   * it visited before the first touched finish line.
   */
  lemma {:induction false} ScanCollectsCoins(g: seq<Row>, ps: seq<Pos>, i: nat, player: Rect, offset: int, hit: bool, points: int)
    requires i <= |ps| && RowMajor(ps)
    decreases |ps| - i
    ensures forall k :: i <= k < FirstFinish(g, ps, i, player, offset) ==>
      !Touches(ScanFrom(g, ps, i, player, offset, hit, points).grid, ps[k], player, offset, Coin)
  {
    if i < |ps| {
      var p := ps[i];
      var r := ScanFrom(g, ps, i, player, offset, hit, points);
      OnlyCollectsTouches(g, r.grid, p, player, offset);
      if !(Live(Slot(g, p)) && Intersects(player, CellRect(p, offset))) {
        assert r == ScanFrom(g, ps, i + 1, player, offset, hit, points);
        ScanCollectsCoins(g, ps, i + 1, player, offset, hit, points);
      } else {
        match Slot(g, p).value.kind
        case Obstacle =>
          assert r == ScanFrom(g, ps, i + 1, player, offset, true, points);
          ScanCollectsCoins(g, ps, i + 1, player, offset, true, points);
        case Coin =>
          var g1 := CollectAt(g, p);
          assert r == ScanFrom(g1, ps, i + 1, player, offset, hit, points + COIN_POINTS);
          CollectKeepsRest(g, ps, i, player, offset);
          FirstFinishFrame(g, g1, ps, i + 1, player, offset);
          OnlyCollectsTouches(g1, r.grid, p, player, offset);
          ScanCollectsCoins(g1, ps, i + 1, player, offset, hit, points + COIN_POINTS);
        case Finish =>
        case Empty =>
          assert r == ScanFrom(g, ps, i + 1, player, offset, hit, points);
          ScanCollectsCoins(g, ps, i + 1, player, offset, hit, points);
      }
    }
  }

  /** A scan that touches no coin before its stop returns the grid it was given. */
  lemma {:induction false} ScanWithoutCoinsKeepsGrid(g: seq<Row>, ps: seq<Pos>, i: nat, player: Rect, offset: int, hit: bool, points: int)
    requires i <= |ps|
    requires forall k :: i <= k < FirstFinish(g, ps, i, player, offset) ==> !Touches(g, ps[k], player, offset, Coin)
    decreases |ps| - i
    ensures ScanFrom(g, ps, i, player, offset, hit, points).grid == g
  {
    if i < |ps| && !Touches(g, ps[i], player, offset, Finish) {
      var h := hit || Touches(g, ps[i], player, offset, Obstacle);
      assert ScanFrom(g, ps, i, player, offset, hit, points) == ScanFrom(g, ps, i + 1, player, offset, h, points);
      ScanWithoutCoinsKeepsGrid(g, ps, i + 1, player, offset, h, points);
    }
  }

  // ------------------------------------------------------------ the call

  datatype Collision = Collision(hit: bool, points: int, state: GameMap)

  /**
   * GameMap::checkCollision with the caller's running `points`: the scan of
   * the window around `player` at the map's scroll offset. Only the grid
   * can change, and only by coins being collected.
   */
  function CheckCollision(m: GameMap, player: Rect, points: int): (r: Collision)
    ensures r.state == m.(grid := r.state.grid)
    ensures r.points >= points
    ensures WellShaped(m.grid) ==> WellShaped(r.state.grid)
    ensures OnlyCollects(m.grid, r.state.grid)
  {
    var ps := WindowCells(ScanWindow(player, m.scrollOffset));
    var s := ScanFrom(m.grid, ps, 0, player, m.scrollOffset, false, points);
    Collision(s.hit, s.points, m.(grid := s.grid))
  }

  /** The player touches a live cell of kind `kind` somewhere in the grid. */
  ghost predicate TouchesAny(g: seq<Row>, player: Rect, offset: int, kind: CellType)
  {
    exists q :: InGrid(q) && Touches(g, q, player, offset, kind)
  }

  /** The scan's first finish index is in range exactly when the player touches a finish cell anywhere. */
  lemma FirstFinishAnywhere(g: seq<Row>, player: Rect, offset: int)
    ensures var ps := WindowCells(ScanWindow(player, offset));
      FirstFinish(g, ps, 0, player, offset) < |ps| <==> TouchesAny(g, player, offset, Finish)
  {
    var ps := WindowCells(ScanWindow(player, offset));
    WindowCellsInGridAndDistinct(player, offset);
    var stop := FirstFinish(g, ps, 0, player, offset);
    if stop < |ps| {
      assert InGrid(ps[stop]) && Touches(g, ps[stop], player, offset, Finish);
    }
    if TouchesAny(g, player, offset, Finish) {
      var q :| InGrid(q) && Touches(g, q, player, offset, Finish);
      WindowCovers(player, offset, q);
      var k :| 0 <= k < |ps| && ps[k] == q;
      assert stop <= k;
    }
  }

  /** Some visited position has a touched obstacle exactly when the player touches one anywhere. */
  lemma ObstacleAnywhere(g: seq<Row>, player: Rect, offset: int)
    ensures var ps := WindowCells(ScanWindow(player, offset));
      ObstacleTouched(g, ps, 0, player, offset) <==> TouchesAny(g, player, offset, Obstacle)
  {
    var ps := WindowCells(ScanWindow(player, offset));
    WindowCellsInGridAndDistinct(player, offset);
    if ObstacleTouched(g, ps, 0, player, offset) {
      var k :| 0 <= k < |ps| && Touches(g, ps[k], player, offset, Obstacle);
      assert InGrid(ps[k]);
    }
    if TouchesAny(g, player, offset, Obstacle) {
      var q :| InGrid(q) && Touches(g, q, player, offset, Obstacle);
      WindowCovers(player, offset, q);
      var k :| 0 <= k < |ps| && ps[k] == q;
      assert Touches(g, ps[k], player, offset, Obstacle);
    }
  }

  /**
   * What checkCollision reports: a collision exactly when the player touches
   * a live obstacle and no live finish cell; FINISH_POINTS when it touches
   * a finish cell, plus COIN_POINTS per coin touched before the first
   * finish cell in row-major order. Without a finish cell, every touched
   * coin ends up collected.
   */
  lemma CheckCollisionMeaning(m: GameMap, player: Rect, points: int)
    ensures var r := CheckCollision(m, player, points);
      var offset := m.scrollOffset;
      var ps := WindowCells(ScanWindow(player, offset));
      && (r.hit <==> TouchesAny(m.grid, player, offset, Obstacle) && !TouchesAny(m.grid, player, offset, Finish))
      && r.points == points + COIN_POINTS * CoinsTouched(m.grid, ps, 0, FirstFinish(m.grid, ps, 0, player, offset), player, offset)
                           + (if TouchesAny(m.grid, player, offset, Finish) then FINISH_POINTS else 0)
      && (!TouchesAny(m.grid, player, offset, Finish) ==>
            forall q :: InGrid(q) && Touches(m.grid, q, player, offset, Coin) ==> Slot(r.state.grid, q).value.collected)
  {
    var offset := m.scrollOffset;
    var ps := WindowCells(ScanWindow(player, offset));
    var r := CheckCollision(m, player, points);
    FirstFinishAnywhere(m.grid, player, offset);
    ObstacleAnywhere(m.grid, player, offset);
    ScanHitMeaning(m.grid, ps, 0, player, offset, false, points);
    ScanPointsMeaning(m.grid, ps, 0, player, offset, false, points);
    if !TouchesAny(m.grid, player, offset, Finish) {
      ScanCollectsCoins(m.grid, ps, 0, player, offset, false, points);
      forall q | InGrid(q) && Touches(m.grid, q, player, offset, Coin)
        ensures Slot(r.state.grid, q).value.collected
      {
        WindowCovers(player, offset, q);
        var k :| 0 <= k < |ps| && ps[k] == q;
        assert !Touches(r.state.grid, ps[k], player, offset, Coin);
        assert CoinCollected(Slot(m.grid, q), Slot(r.state.grid, q));
      }
    }
  }

  /**
   * Checking again with the same player rectangle reports the same result,
   * changes nothing, and scores only the finish bonus: every coin that
   * counted the first time was collected.
   */
  lemma CheckCollisionTwice(m: GameMap, player: Rect, points: int, points2: int)
    ensures var r1 := CheckCollision(m, player, points);
      var r2 := CheckCollision(r1.state, player, points2);
      && r2.hit == r1.hit
      && r2.state == r1.state
      && r2.points == points2 + (if TouchesAny(m.grid, player, m.scrollOffset, Finish) then FINISH_POINTS else 0)
  {
    var offset := m.scrollOffset;
    var ps := WindowCells(ScanWindow(player, offset));
    var r1 := CheckCollision(m, player, points);
    var g1 := r1.state.grid;
    var stop := FirstFinish(m.grid, ps, 0, player, offset);
    OnlyCollectsSameTouches(m.grid, g1, ps, 0, player, offset);
    FirstFinishFrame(m.grid, g1, ps, 0, player, offset);
    ObstacleTouchedFrame(m.grid, g1, ps, 0, player, offset);
    ScanHitMeaning(m.grid, ps, 0, player, offset, false, points);
    ScanHitMeaning(g1, ps, 0, player, offset, false, points2);
    ScanCollectsCoins(m.grid, ps, 0, player, offset, false, points);
    NoCoinsTouched(g1, ps, 0, stop, player, offset);
    ScanPointsMeaning(g1, ps, 0, player, offset, false, points2);
    ScanWithoutCoinsKeepsGrid(g1, ps, 0, player, offset, false, points2);
    FirstFinishAnywhere(m.grid, player, offset);
  }

  /**
   * For the player's own size, coins alone can never reach MAX_SCORE in one
   * check: the gain reaches it exactly when a finish cell is touched.
   */
  lemma GainReachesMaxOnlyAtFinish(m: GameMap, player: Rect, points: int)
    requires player.w == PLAYER_WIDTH && player.h == PLAYER_HEIGHT
    ensures CheckCollision(m, player, points).points - points >= MAX_SCORE <==> TouchesAny(m.grid, player, m.scrollOffset, Finish)
    ensures CheckCollision(m, player, points).points - points < MAX_SCORE + COIN_POINTS * 6
  {
    var ps := WindowCells(ScanWindow(player, m.scrollOffset));
    CheckCollisionMeaning(m, player, points);
    PlayerWindowSize(player, m.scrollOffset);
    var stop := FirstFinish(m.grid, ps, 0, player, m.scrollOffset);
    assert CoinsTouched(m.grid, ps, 0, stop, player, m.scrollOffset) <= 6;
  }

  /** Row `i`, column `c` holds a cell in `g'` exactly when it does in `g`, and of the same kind. */
  predicate SameKindAt(g: seq<Row>, g': seq<Row>, i: int, c: int)
    requires 0 <= i < |g| && 0 <= c < |g[i]| && 0 <= i < |g'| && 0 <= c < |g'[i]|
  {
    g'[i][c].Some? == g[i][c].Some? && (g[i][c].Some? ==> g'[i][c].value.kind == g[i][c].value.kind)
  }

  /** Collecting coins leaves every row's pattern of cells and kinds as it was. */
  lemma OnlyCollectsKeepsRows(g: seq<Row>, g': seq<Row>)
    requires OnlyCollects(g, g') && WellShaped(g) && WellShaped(g')
    ensures forall i :: 0 <= i < |g| ==> (IsFinishRow(g'[i]) <==> IsFinishRow(g[i]))
    ensures forall i :: 0 <= i < |g| ==> (IsOrdinaryRow(g'[i]) <==> IsOrdinaryRow(g[i]))
  {
    forall i, c | 0 <= i < |g| && 0 <= c < |g[i]|
      ensures SameKindAt(g, g', i, c)
    {
      assert Slot(g', Pos(i, c)) == Slot(g, Pos(i, c)) || CoinCollected(Slot(g, Pos(i, c)), Slot(g', Pos(i, c)));
    }
    forall i | 0 <= i < |g|
      ensures (IsFinishRow(g'[i]) <==> IsFinishRow(g[i])) && (IsOrdinaryRow(g'[i]) <==> IsOrdinaryRow(g[i]))
    {
      forall c | 0 <= c < |g[i]|
        ensures g'[i][c].Some? == g[i][c].Some?
        ensures g[i][c].Some? ==> g'[i][c].value.kind == g[i][c].value.kind
      {
        assert SameKindAt(g, g', i, c);
      }
      if IsOrdinaryRow(g[i]) {
        var c :| 0 <= c < |g[i]| && g[i][c].None?;
        assert g'[i][c].None?;
      }
      if IsOrdinaryRow(g'[i]) {
        var c :| 0 <= c < |g'[i]| && g'[i][c].None?;
        assert g[i][c].None?;
      }
    }
  }

  /** checkCollision keeps the map's invariant. */
  lemma CheckCollisionKeepsValid(m: GameMap, player: Rect, points: int)
    requires Valid(m)
    ensures Valid(CheckCollision(m, player, points).state)
  {
    var m' := CheckCollision(m, player, points).state;
    OnlyCollectsKeepsRows(m.grid, m'.grid);
  }
}
