/**
 * The parts of the game driver that touch the grid: the candidate rows and
 * columns of a landed piece, the drop distance of the ghost piece, and the
 * order of the operations when a piece lands.
 */
module Game {
  import opened Tiles
  import opened Boards
  import opened Placement
  import opened RowClearing
  import opened GameGrids
  import opened Achievements

  // ------------------------------------------- candidate rows and columns

  /** Entry `(i, j)` of the piece's tile matrix holds a tile. */
  predicate HasTile(layout: Layout, i: int, j: int)
  {
    0 <= i < |layout| && 0 <= j < |layout[i]| && layout[i][j].Some?
  }

  datatype Axis = Y | X

  function Coord(t: Tile, a: Axis): int
  {
    if a == Y then t.y else t.x
  }

  /** The `a` coordinates of all tiles of the piece. */
  function Coords(layout: Layout, a: Axis): set<int>
  {
    set i, j | 0 <= i < |layout| && 0 <= j < |layout[i]| && HasTile(layout, i, j) :: Coord(layout[i][j].value, a)
  }

  /** The `a` coordinates of the tiles met before entry `(i, j)` in the scan of the matrix. */
  function Seen(layout: Layout, a: Axis, i: int, j: int): set<int>
  {
    set p, q | 0 <= p < |layout| && 0 <= q < |layout[p]| && HasTile(layout, p, q) && (p < i || (p == i && q < j)) ::
      Coord(layout[p][q].value, a)
  }

  lemma {:induction false} SeenStep(layout: Layout, a: Axis, i: nat, j: nat)
    requires i < |layout| && j < |layout[i]|
    ensures Seen(layout, a, i, j + 1) ==
      Seen(layout, a, i, j) + (if layout[i][j].Some? then {Coord(layout[i][j].value, a)} else {})
  {
    var added := if layout[i][j].Some? then {Coord(layout[i][j].value, a)} else {};
    forall v | v in Seen(layout, a, i, j) + added ensures v in Seen(layout, a, i, j + 1) {
      if v in added {
        assert HasTile(layout, i, j) && Coord(layout[i][j].value, a) == v;
      } else {
        var p, q :| 0 <= p < |layout| && 0 <= q < |layout[p]| && HasTile(layout, p, q) && (p < i || (p == i && q < j)) &&
          Coord(layout[p][q].value, a) == v;
      }
    }
  }

  lemma {:induction false} SeenRow(layout: Layout, a: Axis, i: nat)
    requires i < |layout|
    ensures Seen(layout, a, i + 1, 0) == Seen(layout, a, i, |layout[i]|)
  {
    forall v | v in Seen(layout, a, i + 1, 0) ensures v in Seen(layout, a, i, |layout[i]|) {
      var p, q :| 0 <= p < |layout| && 0 <= q < |layout[p]| && HasTile(layout, p, q) && p < i + 1 &&
        Coord(layout[p][q].value, a) == v;
    }
  }

  lemma {:induction false} SeenAll(layout: Layout, a: Axis)
    ensures Seen(layout, a, |layout|, 0) == Coords(layout, a)
  {
  }

  /** The nested loop shared by `rowsToCheck` and `columnsToCheck`. */
  method Collect(layout: Layout, a: Axis) returns (s: set<int>)
    ensures s == Coords(layout, a)
  {
    s := {};
    for i := 0 to |layout|
      invariant s == Seen(layout, a, i, 0)
    {
      for j := 0 to |layout[i]|
        invariant s == Seen(layout, a, i, j)
      {
        SeenStep(layout, a, i, j);
        if layout[i][j].Some? {
          s := s + {Coord(layout[i][j].value, a)};
        }
      }
      SeenRow(layout, a, i);
    }
    SeenAll(layout, a);
  }

  /** `rowsToCheck`: the rows of the piece's tiles, exactly. */
  method RowsToCheck(layout: Layout) returns (s: set<int>)
    ensures s == Coords(layout, Y)
  {
    s := Collect(layout, Y);
  }

  /** `columnsToCheck`: the columns of the piece's tiles, exactly. */
  method ColumnsToCheck(layout: Layout) returns (s: set<int>)
    ensures s == Coords(layout, X)
  {
    s := Collect(layout, X);
  }

  /** A matrix without tiles has no candidate row and no candidate column. */
  lemma {:induction false} NoTilesNoCandidates(layout: Layout)
    requires forall i, j | 0 <= i < |layout| && 0 <= j < |layout[i]| :: layout[i][j].None?
    ensures Coords(layout, Y) == {} && Coords(layout, X) == {}
  {
    assert forall i, j :: !HasTile(layout, i, j);
  }

  /** The columns of a piece that lies horizontally within the board are all columns of the board. */
  lemma {:induction false} CandidateColumnsInRange(layout: Layout, w: nat)
    requires forall i, j | HasTile(layout, i, j) :: 0 <= layout[i][j].value.x < w
    ensures ColumnsInRange(Coords(layout, X), w)
  {
    forall x | x in Coords(layout, X) ensures 0 <= x < w {
      var i, j :| 0 <= i < |layout| && 0 <= j < |layout[i]| && HasTile(layout, i, j) && layout[i][j].value.x == x;
    }
  }

  // --------------------------------------------------- ghost drop distance

  /**
   * How many rows the tile at `(x, y)` can fall: the length of the run of
   * empty cells of the board directly beneath it.
   */
  function Fall(g: Grid, w: nat, x: int, y: int): (r: nat)
    requires IsGrid(g, w)
    ensures r > 0 ==> r <= y <= |g|
    decreases y
  {
    if Inside(g, w, y - 1, x) && g[y - 1][x].None? then 1 + Fall(g, w, x, y - 1) else 0
  }

  /** The cell `k` rows below tile `t` is a cell of the board and empty. */
  predicate Open(g: Grid, w: nat, t: Tile, k: int)
    requires IsGrid(g, w)
  {
    Inside(g, w, t.y - k, t.x) && g[t.y - k][t.x].None?
  }

  /** Every cell the tile falls through is open ... */
  lemma {:induction false} FallOpen(g: Grid, w: nat, t: Tile, k: int)
    requires IsGrid(g, w) && 1 <= k <= Fall(g, w, t.x, t.y)
    ensures Open(g, w, t, k)
    decreases t.y
  {
    if k > 1 {
      FallOpen(g, w, Tile(t.number, t.x, t.y - 1), k - 1);
    }
  }

  /** ... and the cell just below the last one is not. */
  lemma {:induction false} FallStops(g: Grid, w: nat, t: Tile)
    requires IsGrid(g, w)
    ensures !Open(g, w, t, Fall(g, w, t.x, t.y) + 1)
    decreases t.y
  {
    if Fall(g, w, t.x, t.y) > 0 {
      FallStops(g, w, Tile(t.number, t.x, t.y - 1));
    }
  }

  /**
   * `m` is the ghost drop of the piece: the least fall of its tiles, or the
   * board height when the piece has no tile.
   */
  ghost predicate IsMinDrop(g: Grid, w: nat, layout: Layout, m: int)
    requires IsGrid(g, w)
  {
    0 <= m <= |g| &&
    (forall i, j | HasTile(layout, i, j) :: m <= Fall(g, w, layout[i][j].value.x, layout[i][j].value.y)) &&
    (m == |g| || exists i, j | HasTile(layout, i, j) :: m == Fall(g, w, layout[i][j].value.x, layout[i][j].value.y))
  }

  /** The inner loop of the ghost drop: how far the tile at `(x, y)` falls, probing with `is_inside` and `is_occupied`. */
  method DropDistance(grid: GameGrid, x: int, y: int) returns (d: nat)
    requires grid.Valid()
    ensures d == Fall(grid.Numbers(), grid.width, x, y)
  {
    d := 0;
    while true
      invariant d + Fall(grid.Numbers(), grid.width, x, y - d) == Fall(grid.Numbers(), grid.width, x, y)
      decreases y - d
    {
      if !grid.IsInside(y - d - 1, x) || grid.IsOccupied(y - d - 1, x) {
        break;
      }
      d := d + 1;
    }
  }

  /** Entry `(p, q)` comes before entry `(i, j)` in the scan of the matrix. */
  predicate Before(p: int, q: int, i: int, j: int)
  {
    p < i || (p == i && q < j)
  }

  /** `m` is the ghost drop of the tiles scanned before entry `(i, j)`. */
  ghost predicate DropSoFar(g: Grid, w: nat, layout: Layout, m: int, i: int, j: int)
    requires IsGrid(g, w)
  {
    0 <= m <= |g| &&
    (forall p, q | HasTile(layout, p, q) && Before(p, q, i, j) :: m <= Fall(g, w, layout[p][q].value.x, layout[p][q].value.y)) &&
    (m == |g| || exists p, q | HasTile(layout, p, q) && Before(p, q, i, j) :: m == Fall(g, w, layout[p][q].value.x, layout[p][q].value.y))
  }

  lemma {:induction false} DropSoFarStep(g: Grid, w: nat, layout: Layout, m: int, i: int, j: int)
    requires IsGrid(g, w) && 0 <= i < |layout| && 0 <= j < |layout[i]| && DropSoFar(g, w, layout, m, i, j)
    ensures var m' := if HasTile(layout, i, j) && Fall(g, w, layout[i][j].value.x, layout[i][j].value.y) < m
                      then Fall(g, w, layout[i][j].value.x, layout[i][j].value.y) else m;
      DropSoFar(g, w, layout, m', i, j + 1)
  {
    var m' := if HasTile(layout, i, j) && Fall(g, w, layout[i][j].value.x, layout[i][j].value.y) < m
              then Fall(g, w, layout[i][j].value.x, layout[i][j].value.y) else m;
    if m' != m {
      assert HasTile(layout, i, j) && Before(i, j, i, j + 1);
    } else if m != |g| {
      var p, q :| HasTile(layout, p, q) && Before(p, q, i, j) && m == Fall(g, w, layout[p][q].value.x, layout[p][q].value.y);
      assert Before(p, q, i, j + 1);
    }
  }

  lemma {:induction false} DropSoFarRow(g: Grid, w: nat, layout: Layout, m: int, i: int)
    requires IsGrid(g, w) && 0 <= i < |layout| && DropSoFar(g, w, layout, m, i, |layout[i]|)
    ensures DropSoFar(g, w, layout, m, i + 1, 0)
  {
    if m != |g| {
      var p, q :| HasTile(layout, p, q) && Before(p, q, i, |layout[i]|) && m == Fall(g, w, layout[p][q].value.x, layout[p][q].value.y);
      assert Before(p, q, i + 1, 0);
    }
  }

  lemma {:induction false} DropSoFarAll(g: Grid, w: nat, layout: Layout, m: int)
    requires IsGrid(g, w) && DropSoFar(g, w, layout, m, |layout|, 0)
    ensures IsMinDrop(g, w, layout, m)
  {
  }

  /** The ghost drop loop of the game driver: the least drop distance over the piece's tiles, at most the board height. */
  method GhostDrop(grid: GameGrid, layout: Layout) returns (minDrop: int)
    requires grid.Valid()
    ensures IsMinDrop(grid.Numbers(), grid.width, layout, minDrop)
  {
    ghost var g := grid.Numbers();
    ghost var w := grid.width;
    minDrop := grid.height;
    for i := 0 to |layout|
      invariant DropSoFar(g, w, layout, minDrop, i, 0)
    {
      for j := 0 to |layout[i]|
        invariant DropSoFar(g, w, layout, minDrop, i, j)
      {
        DropSoFarStep(g, w, layout, minDrop, i, j);
        if layout[i][j].Some? {
          var d := DropDistance(grid, layout[i][j].value.x, layout[i][j].value.y);
          if d < minDrop {
            minDrop := d;
          }
        }
      }
      DropSoFarRow(g, w, layout, minDrop, i);
    }
    DropSoFarAll(g, w, layout, minDrop);
  }

  /** Every cell between a tile and its ghost is a cell of the board and empty. */
  lemma {:induction false} MinDropOpen(g: Grid, w: nat, layout: Layout, m: int)
    requires IsGrid(g, w) && IsMinDrop(g, w, layout, m)
    ensures forall i, j, k | HasTile(layout, i, j) && 1 <= k <= m :: Open(g, w, layout[i][j].value, k)
  {
    forall i, j, k | HasTile(layout, i, j) && 1 <= k <= m ensures Open(g, w, layout[i][j].value, k) {
      FallOpen(g, w, layout[i][j].value, k);
    }
  }

  /** A piece with a tile cannot drop one row further: some tile's next cell is off the board or occupied. */
  lemma {:induction false} MinDropMaximal(g: Grid, w: nat, layout: Layout, m: int)
    requires IsGrid(g, w) && IsMinDrop(g, w, layout, m)
    requires exists i, j :: HasTile(layout, i, j)
    ensures exists i, j | HasTile(layout, i, j) :: !Open(g, w, layout[i][j].value, m + 1)
  {
    var i, j :| HasTile(layout, i, j);
    if m != |g| {
      i, j :| HasTile(layout, i, j) && m == Fall(g, w, layout[i][j].value.x, layout[i][j].value.y);
    }
    FallStops(g, w, layout[i][j].value);
  }

  /** The ghost drop is determined by the board and the piece. */
  lemma {:induction false} MinDropUnique(g: Grid, w: nat, layout: Layout, m1: int, m2: int)
    requires IsGrid(g, w) && IsMinDrop(g, w, layout, m1) && IsMinDrop(g, w, layout, m2)
    ensures m1 == m2
  {
    if m1 != |g| {
      var i, j :| HasTile(layout, i, j) && m1 == Fall(g, w, layout[i][j].value.x, layout[i][j].value.y);
      assert m2 <= m1;
    }
    if m2 != |g| {
      var i, j :| HasTile(layout, i, j) && m2 == Fall(g, w, layout[i][j].value.x, layout[i][j].value.y);
      assert m1 <= m2;
    }
  }

  // ------------------------------------------------------------ landing

  /** The event counting cleared rows. */
  const RowEvent: string := "row_cleared"

  /** The reports made after a landing: the row event when `rowCount` is positive, then the score. */
  function LandingReports(tr: Tracker, defs: seq<Definition>, rowCount: nat, score: int): Tracker
  {
    var afterRows := if rowCount > 0 then Report(tr, defs, RowEvent, rowCount) else tr;
    Report(afterRows, defs, ScoreEvent, score)
  }

  /**
   * A landing as the game driver performs it: place the piece, clear its
   * rows, report the number of its rows, merge its columns, report the
   * score. The caller stops when the result is true; clearing and merging
   * happen on the placement that ends the game too.
   */
  method Land(grid: GameGrid, mgr: AchievementManager, layout: Layout) returns (over: bool)
    requires grid.Valid() && WellShaped(layout)
    requires forall i, j | HasTile(layout, i, j) :: 0 <= layout[i][j].value.x < grid.width
    modifies grid, grid.cells, mgr
    ensures grid.Valid()
    ensures var placed := Place(old(grid.Numbers()), grid.width, ScanOrder(layout));
      var cleared := RowCheckOutcome(placed.rows, grid.width, Coords(layout, Y));
      var merged := SumCheckOutcome(cleared.rows, grid.width, Coords(layout, X));
      over == placed.over && grid.gameOver == over &&
      grid.Numbers() == merged.rows && grid.score == old(grid.score) + cleared.gain + merged.gain
    ensures mgr.State() == LandingReports(old(mgr.State()), mgr.definitions, |Coords(layout, Y)|, grid.score)
  {
    over := grid.UpdateGrid(layout);
    var rows := RowsToCheck(layout);
    assert rows == Coords(layout, Y);
    var cleared := grid.RowCheck(rows);
    if |rows| > 0 {
      mgr.ReportEvent(RowEvent, |rows|);
    }
    var cols := ColumnsToCheck(layout);
    assert cols == Coords(layout, X);
    CandidateColumnsInRange(layout, grid.width);
    grid.SumCheck(cols);
    mgr.ReportEvent(ScoreEvent, grid.score);
  }

  /**
   * The number of rows the landing of `layout` on `g` clears (as opposed
   * to the number of rows the piece spans).
   */
  function RowsCleared(g: Grid, w: nat, layout: Layout): nat
    requires IsGrid(g, w) && WellShaped(layout)
  {
    var placed := Place(g, w, ScanOrder(layout));
    var ys := SortedRows(Coords(layout, Y), |g|);
    RowPass(placed.rows, w, ys, |ys|).count
  }

  /** A single tile in the bottom-left corner: the piece spans row 0 only. */
  lemma CornerTileRows()
    ensures Coords([[Some(Tile(2, 0, 0))]], Y) == {0}
  {
    var layout: Layout := [[Some(Tile(2, 0, 0))]];
    assert HasTile(layout, 0, 0);
    forall v | v in Coords(layout, Y) ensures v == 0 {
      var i, j :| 0 <= i < |layout| && 0 <= j < |layout[i]| && HasTile(layout, i, j) && Coord(layout[i][j].value, Y) == v;
    }
  }

  /** That tile, landing on an empty 2 x 2 board, completes no row. */
  lemma CornerTileClearsNothing()
    ensures RowsCleared([[None, None], [None, None]], 2, [[Some(Tile(2, 0, 0))]]) == 0
  {
    var g: Grid := [[None, None], [None, None]];
    var layout: Layout := [[Some(Tile(2, 0, 0))]];
    var t := Tile(2, 0, 0);
    CornerTileRows();
    assert ColumnTiles(layout, 0, 1) == [t] by {
      assert ColumnTiles(layout, 0, 0) == [];
    }
    assert ScanOrder(layout) == [t] by {
      assert LayoutTiles(layout, 0) == [];
    }
    var row: seq<Cell> := [Some(2), None];
    assert Place(g, 2, [t]).rows == [row, [None, None]] by {
      assert [t][..0] == [];
      assert g[0][0 := Some(2)] == row;
      assert PlaceOne(g, 2, t).rows == g[0 := row];
    }
    assert SortedRows({0}, 2) == [0];
    assert !Full(row) by {
      assert row[1].None?;
    }
  }

  /** A row event of any positive count unlocks the first-row achievement of a new session. */
  lemma {:induction false} FirstReportUnlocks(rowCount: nat, score: int)
    requires rowCount > 0
    ensures "first_row" in LandingReports(Fresh({}), Definitions(), rowCount, score).unlocked
  {
    ReportAccumulates(Fresh({}), Definitions(), RowEvent, rowCount, 0);
    ReportSkips(Report(Fresh({}), Definitions(), RowEvent, rowCount), Definitions(), ScoreEvent, score, 0);
  }

  /**
   * As written, the row event carries the number of rows the piece spans:
   * one tile landing on an empty 2 x 2 board clears nothing, yet the
   * first-row achievement unlocks.
   */
  lemma FirstRowWithoutClear()
    ensures var g := [[None, None], [None, None]];
      var layout := [[Some(Tile(2, 0, 0))]];
      RowsCleared(g, 2, layout) == 0 &&
      "first_row" in LandingReports(Fresh({}), Definitions(), |Coords(layout, Y)|, 0).unlocked
  {
    CornerTileRows();
    CornerTileClearsNothing();
    FirstReportUnlocks(1, 0);
  }

  /**
   * The landing with the row event carrying the number of rows actually
   * cleared, and only when some row was.
   */
  method LandCounted(grid: GameGrid, mgr: AchievementManager, layout: Layout) returns (over: bool)
    requires grid.Valid() && WellShaped(layout)
    requires forall i, j | HasTile(layout, i, j) :: 0 <= layout[i][j].value.x < grid.width
    modifies grid, grid.cells, mgr
    ensures grid.Valid()
    ensures var placed := Place(old(grid.Numbers()), grid.width, ScanOrder(layout));
      var cleared := RowCheckOutcome(placed.rows, grid.width, Coords(layout, Y));
      var merged := SumCheckOutcome(cleared.rows, grid.width, Coords(layout, X));
      over == placed.over && grid.gameOver == over &&
      grid.Numbers() == merged.rows && grid.score == old(grid.score) + cleared.gain + merged.gain
    ensures mgr.State() ==
      LandingReports(old(mgr.State()), mgr.definitions, RowsCleared(old(grid.Numbers()), grid.width, layout), grid.score)
  {
    over := grid.UpdateGrid(layout);
    var rows := RowsToCheck(layout);
    assert rows == Coords(layout, Y);
    var cleared := grid.RowCheck(rows);
    if cleared > 0 {
      mgr.ReportEvent(RowEvent, cleared);
    }
    var cols := ColumnsToCheck(layout);
    assert cols == Coords(layout, X);
    CandidateColumnsInRange(layout, grid.width);
    grid.SumCheck(cols);
    mgr.ReportEvent(ScoreEvent, grid.score);
  }

  /** Between landings the first-row counter exists only once the achievement is unlocked. */
  predicate FirstRowPending(tr: Tracker)
  {
    "first_row" !in tr.unlocked ==> "first_row" !in tr.progress
  }

  /**
   * With the counted reports, the first-row achievement is unlocked after a
   * landing iff it already was or the landing cleared a row; and the
   * counter stays as `FirstRowPending` describes.
   */
  lemma {:induction false} FirstRowIffCleared(tr: Tracker, cleared: nat, score: int)
    requires FirstRowPending(tr)
    ensures var r := LandingReports(tr, Definitions(), cleared, score);
      FirstRowPending(r) && ("first_row" in r.unlocked <==> "first_row" in tr.unlocked || cleared > 0)
  {
    var defs := Definitions();
    assert defs[0].id == "first_row" && defs[0].event == RowEvent;
    var afterRows := if cleared > 0 then Report(tr, defs, RowEvent, cleared) else tr;
    if cleared > 0 {
      if "first_row" in tr.unlocked {
        ReportSkips(tr, defs, RowEvent, cleared, 0);
      } else {
        ReportAccumulates(tr, defs, RowEvent, cleared, 0);
      }
    }
    ReportSkips(afterRows, defs, ScoreEvent, score, 0);
  }
}
