/**
 * Committing a landed piece's tiles to the board (`update_grid`), as a fold
 * over the piece's tiles in the order the placement scan visits them.
 */
module Placement {
  import opened Tiles
  import opened Boards

  /** A layout the placement scan can walk: at least one row, and no row shorter than the first. */
  predicate WellShaped(layout: Layout)
  {
    |layout| > 0 && forall i | 0 <= i < |layout| :: |layout[0]| <= |layout[i]|
  }

  /** The tiles of layout column `c` in rows `0 .. n - 1`, in scan order. */
  function ColumnTiles(layout: Layout, c: nat, n: nat): seq<Tile>
    requires n <= |layout| && forall i | 0 <= i < n :: c < |layout[i]|
  {
    if n == 0 then []
    else ColumnTiles(layout, c, n - 1) + (if layout[n - 1][c].Some? then [layout[n - 1][c].value] else [])
  }

  /** The tiles of layout columns `0 .. k - 1`, column after column. */
  function LayoutTiles(layout: Layout, k: nat): seq<Tile>
    requires WellShaped(layout) && k <= |layout[0]|
  {
    if k == 0 then [] else LayoutTiles(layout, k - 1) + ColumnTiles(layout, k - 1, |layout|)
  }

  /** The order in which the placement scan visits a piece's tiles: column by column, first row first. */
  function ScanOrder(layout: Layout): seq<Tile>
    requires WellShaped(layout)
  {
    LayoutTiles(layout, |layout[0]|)
  }

  lemma {:induction false} LayoutTilesStep(layout: Layout, k: nat)
    requires WellShaped(layout) && k < |layout[0]|
    ensures LayoutTiles(layout, k + 1) == LayoutTiles(layout, k) + ColumnTiles(layout, k, |layout|)
  {
  }

  lemma {:induction false} ColumnTilesMember(layout: Layout, c: nat, n: nat, t: Tile)
    requires n <= |layout| && forall i | 0 <= i < n :: c < |layout[i]|
    ensures t in ColumnTiles(layout, c, n) <==> exists i | 0 <= i < n :: layout[i][c] == Some(t)
  {
    if n > 0 {
      ColumnTilesMember(layout, c, n - 1, t);
      if layout[n - 1][c] == Some(t) {
        assert t in ColumnTiles(layout, c, n);
      }
    }
  }

  lemma {:induction false} LayoutTilesMember(layout: Layout, k: nat, t: Tile)
    requires WellShaped(layout) && k <= |layout[0]|
    ensures t in LayoutTiles(layout, k) <==> exists i, j | 0 <= i < |layout| && 0 <= j < k :: layout[i][j] == Some(t)
  {
    if k > 0 {
      var a, b := LayoutTiles(layout, k - 1), ColumnTiles(layout, k - 1, |layout|);
      LayoutTilesMember(layout, k - 1, t);
      ColumnTilesMember(layout, k - 1, |layout|, t);
      assert LayoutTiles(layout, k) == a + b;
      if t in a {
        var i, j :| 0 <= i < |layout| && 0 <= j < k - 1 && layout[i][j] == Some(t);
        assert 0 <= j < k;
      } else if t in b {
        var i :| 0 <= i < |layout| && layout[i][k - 1] == Some(t);
        assert 0 <= k - 1 < k;
      } else {
        forall i, j | 0 <= i < |layout| && 0 <= j < k ensures layout[i][j] != Some(t) {
          if j < k - 1 {
            assert layout[i][j] != Some(t);
          }
        }
      }
    }
  }

  /** The scan visits exactly the tiles of the layout's first `|layout[0]|` columns. */
  lemma {:induction false} ScanOrderTiles(layout: Layout)
    requires WellShaped(layout)
    ensures forall t :: t in ScanOrder(layout) <==>
      exists i, j | 0 <= i < |layout| && 0 <= j < |layout[0]| :: layout[i][j] == Some(t)
  {
    forall t ensures t in ScanOrder(layout) <==>
      exists i, j | 0 <= i < |layout| && 0 <= j < |layout[0]| :: layout[i][j] == Some(t)
    {
      LayoutTilesMember(layout, |layout[0]|, t);
    }
  }

  /** The board after a placement, and whether it ended the game. */
  datatype Placed = Placed(rows: Grid, over: bool)

  /** One tile: out of the board or onto an occupied cell ends the game; otherwise it is stored at its own position. */
  function PlaceOne(g: Grid, w: nat, t: Tile): (p: Placed)
    requires IsGrid(g, w)
    ensures IsGrid(p.rows, w) && |p.rows| == |g|
  {
    if !Inside(g, w, t.y, t.x) || g[t.y][t.x].Some? then Placed(g, true)
    else Placed(g[t.y := g[t.y][t.x := Some(t.number)]], false)
  }

  /** `update_grid`: every tile in turn, with no roll-back; the game is over if any tile failed. */
  function Place(g: Grid, w: nat, ts: seq<Tile>): (p: Placed)
    requires IsGrid(g, w)
    ensures IsGrid(p.rows, w) && |p.rows| == |g|
  {
    if ts == [] then Placed(g, false)
    else
      var p := Place(g, w, ts[..|ts| - 1]);
      var q := PlaceOne(p.rows, w, ts[|ts| - 1]);
      Placed(q.rows, p.over || q.over)
  }

  /** Placing one more tile places the earlier ones, then that one. */
  lemma {:induction false} PlaceSnoc(g: Grid, w: nat, ts: seq<Tile>, t: Tile)
    requires IsGrid(g, w)
    ensures var p := Place(g, w, ts); var q := PlaceOne(p.rows, w, t);
      Place(g, w, ts + [t]) == Placed(q.rows, p.over || q.over)
  {
    assert (ts + [t])[..|ts|] == ts;
  }

  /** The tiles of layout column `c` in rows `0 .. n - 1`, placed one row after another. */
  function PlaceRows(g: Grid, w: nat, layout: Layout, c: nat, n: nat): (p: Placed)
    requires IsGrid(g, w) && n <= |layout| && forall i | 0 <= i < n :: c < |layout[i]|
    ensures IsGrid(p.rows, w) && |p.rows| == |g|
  {
    if n == 0 then Placed(g, false)
    else
      var p := PlaceRows(g, w, layout, c, n - 1);
      if layout[n - 1][c].None? then p
      else
        var q := PlaceOne(p.rows, w, layout[n - 1][c].value);
        Placed(q.rows, p.over || q.over)
  }

  /** Row-by-row placement of a layout column agrees with one placement of its tiles. */
  predicate RowsAgree(g: Grid, w: nat, layout: Layout, c: nat, n: nat)
    requires IsGrid(g, w) && n <= |layout| && forall i | 0 <= i < n :: c < |layout[i]|
  {
    PlaceRows(g, w, layout, c, n) == Place(g, w, ColumnTiles(layout, c, n))
  }

  lemma {:induction false} PlaceRowsStep(g: Grid, w: nat, layout: Layout, c: nat, n: nat)
    requires IsGrid(g, w) && n < |layout| && forall i | 0 <= i <= n :: c < |layout[i]|
    requires RowsAgree(g, w, layout, c, n)
    ensures RowsAgree(g, w, layout, c, n + 1)
  {
    var ts := ColumnTiles(layout, c, n);
    if layout[n][c].Some? {
      assert ColumnTiles(layout, c, n + 1) == ts + [layout[n][c].value];
      PlaceSnoc(g, w, ts, layout[n][c].value);
    } else {
      assert ColumnTiles(layout, c, n + 1) == ts;
    }
  }

  /** Placing a layout column row by row is placing its tiles in scan order. */
  lemma {:induction false} PlaceRowsTiles(g: Grid, w: nat, layout: Layout, c: nat, n: nat)
    requires IsGrid(g, w) && n <= |layout| && forall i | 0 <= i < n :: c < |layout[i]|
    ensures RowsAgree(g, w, layout, c, n)
  {
    assert ColumnTiles(layout, c, 0) == [];
    var i := 0;
    while i < n
      invariant i <= n && RowsAgree(g, w, layout, c, i)
    {
      PlaceRowsStep(g, w, layout, c, i);
      i := i + 1;
    }
  }

  /** Placing `a` then `b` is placing `a + b`: the board after `a` is where `b` starts, and the game is over if either part failed. */
  lemma {:induction false} PlaceAppend(g: Grid, w: nat, a: seq<Tile>, b: seq<Tile>)
    requires IsGrid(g, w)
    ensures var p := Place(g, w, a); var q := Place(p.rows, w, b);
      Place(g, w, a + b) == Placed(q.rows, p.over || q.over)
  {
    if b == [] {
      assert a + b == a;
    } else {
      var init := b[..|b| - 1];
      PlaceAppend(g, w, a, init);
      assert (a + b)[..|a + b| - 1] == a + init;
      assert (a + b)[|a + b| - 1] == b[|b| - 1];
    }
  }

  /** Placement column by column: the tiles of layout columns `0 .. k - 1`, each column starting on the board the previous one left. */
  function PlaceColumns(g: Grid, w: nat, layout: Layout, k: nat): (p: Placed)
    requires IsGrid(g, w) && WellShaped(layout) && k <= |layout[0]|
    ensures IsGrid(p.rows, w) && |p.rows| == |g|
  {
    if k == 0 then Placed(g, false)
    else
      var p := PlaceColumns(g, w, layout, k - 1);
      var q := Place(p.rows, w, ColumnTiles(layout, k - 1, |layout|));
      Placed(q.rows, p.over || q.over)
  }

  /** Column-by-column placement of the first `k` columns agrees with one placement of their tiles in scan order. */
  predicate ColumnsAgree(g: Grid, w: nat, layout: Layout, k: nat)
    requires IsGrid(g, w) && WellShaped(layout) && k <= |layout[0]|
  {
    PlaceColumns(g, w, layout, k) == Place(g, w, LayoutTiles(layout, k))
  }

  /** Agreement on `k - 1` columns extends to `k`. */
  lemma {:induction false} PlaceColumnsStep(g: Grid, w: nat, layout: Layout, k: nat)
    requires IsGrid(g, w) && WellShaped(layout) && 0 < k <= |layout[0]|
    requires ColumnsAgree(g, w, layout, k - 1)
    ensures ColumnsAgree(g, w, layout, k)
  {
    LayoutTilesStep(layout, k - 1);
    PlaceAppend(g, w, LayoutTiles(layout, k - 1), ColumnTiles(layout, k - 1, |layout|));
  }

  /** Column by column is the same as one placement in scan order. */
  lemma {:induction false} PlaceColumnsScan(g: Grid, w: nat, layout: Layout, k: nat)
    requires IsGrid(g, w) && WellShaped(layout) && k <= |layout[0]|
    ensures ColumnsAgree(g, w, layout, k)
  {
    assert LayoutTiles(layout, 0) == [];
    var i := 0;
    while i < k
      invariant i <= k && ColumnsAgree(g, w, layout, i)
    {
      PlaceColumnsStep(g, w, layout, i + 1);
      i := i + 1;
    }
  }

  predicate Targets(t: Tile, r: int, c: int)
  {
    t.y == r && t.x == c
  }

  /** Tile `i` cannot be stored: it is off the board, its cell was occupied, or an earlier tile of the piece aims at the same cell. */
  predicate Blocked(g: Grid, w: nat, ts: seq<Tile>, i: int)
    requires IsGrid(g, w) && 0 <= i < |ts|
  {
    !Inside(g, w, ts[i].y, ts[i].x) || g[ts[i].y][ts[i].x].Some? ||
    exists j | 0 <= j < i :: Targets(ts[j], ts[i].y, ts[i].x)
  }

  /**
   * What a placement leaves in one cell: an existing tile is never
   * overwritten, a cell no tile aims at keeps its value, and an empty cell
   * receives the first tile aiming at it, whatever happened to other tiles.
   */
  lemma {:induction false} PlaceCell(g: Grid, w: nat, ts: seq<Tile>, r: int, c: int)
    requires IsGrid(g, w) && Inside(g, w, r, c)
    ensures g[r][c].Some? ==> Place(g, w, ts).rows[r][c] == g[r][c]
    ensures g[r][c].None? && (forall i | 0 <= i < |ts| :: !Targets(ts[i], r, c)) ==>
      Place(g, w, ts).rows[r][c] == None
    ensures forall i | 0 <= i < |ts| && Targets(ts[i], r, c) && (forall j | 0 <= j < i :: !Targets(ts[j], r, c)) ::
      g[r][c].None? ==> Place(g, w, ts).rows[r][c] == Some(ts[i].number)
    ensures (exists i | 0 <= i < |ts| :: Targets(ts[i], r, c)) ==> Place(g, w, ts).rows[r][c].Some?
  {
    if ts != [] {
      var n := |ts|;
      var init := ts[..n - 1];
      PlaceCell(g, w, init, r, c);
      assert forall i | 0 <= i < n - 1 :: init[i] == ts[i];
    }
  }

  /** A placement ends the game exactly when some tile is blocked. */
  lemma {:induction false} PlaceOver(g: Grid, w: nat, ts: seq<Tile>)
    requires IsGrid(g, w)
    ensures Place(g, w, ts).over <==> exists i | 0 <= i < |ts| :: Blocked(g, w, ts, i)
  {
    if ts != [] {
      var n := |ts|;
      var init := ts[..n - 1];
      var t := ts[n - 1];
      PlaceOver(g, w, init);
      assert forall i | 0 <= i < n - 1 :: Blocked(g, w, init, i) == Blocked(g, w, ts, i) by {
        forall i | 0 <= i < n - 1 ensures Blocked(g, w, init, i) == Blocked(g, w, ts, i) {
          assert forall j | 0 <= j < i :: init[j] == ts[j];
        }
      }
      var p := Place(g, w, init);
      assert Place(g, w, ts).over == (p.over || PlaceOne(p.rows, w, t).over);
      if Inside(g, w, t.y, t.x) {
        PlaceCell(g, w, init, t.y, t.x);
        assert (exists j | 0 <= j < n - 1 :: Targets(init[j], t.y, t.x)) ==
               (exists j | 0 <= j < n - 1 :: Targets(ts[j], t.y, t.x));
        assert p.rows[t.y][t.x].Some? == Blocked(g, w, ts, n - 1);
      }
      assert PlaceOne(p.rows, w, t).over == Blocked(g, w, ts, n - 1);
    }
  }

  /** A tile one row above the top ends the game, wherever it comes in the scan. */
  lemma {:induction false} PlaceAboveTop(g: Grid, w: nat, ts: seq<Tile>, i: int)
    requires IsGrid(g, w) && 0 <= i < |ts| && ts[i].y == |g|
    ensures Place(g, w, ts).over
  {
    PlaceOver(g, w, ts);
    assert Blocked(g, w, ts, i);
  }

  /** Two tiles of one piece aimed at the same cell end the game. */
  lemma {:induction false} PlaceSameCell(g: Grid, w: nat, ts: seq<Tile>, i: int, j: int)
    requires IsGrid(g, w) && 0 <= i < j < |ts| && Targets(ts[i], ts[j].y, ts[j].x)
    ensures Place(g, w, ts).over
  {
    PlaceOver(g, w, ts);
    assert Blocked(g, w, ts, j);
  }
}
