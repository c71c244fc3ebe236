/**
 * The playing field (`GameGrid`): a matrix of optional tiles, row 0 at the
 * bottom, with the running score and the game-over flag. Every operation
 * changes the matrix in place and is proved to leave the board that the
 * value-level definitions of Boards, Placement and RowClearing describe.
 */
module GameGrids {
  import opened Tiles
  import opened Columns
  import opened Boards
  import opened Placement
  import opened RowClearing

  /** Some member of a non-empty set. */
  lemma {:induction false} Member(s: set<int>) returns (x: int)
    requires s != {}
    ensures x in s
  {
    if forall y :: y !in s {
      assert false;
    }
    x :| x in s;
  }

  class GameGrid {
    const height: nat
    const width: nat
    /** `tile_matrix`: `cells[r, c]` is the tile in row `r`, column `c`, if any. */
    const cells: array2<Option<Tile>>
    var score: nat
    var gameOver: bool

    /** The matrix has the grid's dimensions and every tile records the cell it sits in. */
    ghost predicate Valid()
      reads cells
    {
      cells.Length0 == height && cells.Length1 == width &&
      forall r, c | 0 <= r < height && 0 <= c < width && cells[r, c].Some? ::
        cells[r, c].value.y == r && cells[r, c].value.x == c
    }

    /** The numbers on the board, as a value. */
    ghost function Numbers(): (g: Grid)
      reads cells
      ensures |g| == cells.Length0 && IsGrid(g, cells.Length1)
    {
      seq(cells.Length0, r requires 0 <= r < cells.Length0 reads cells =>
        seq(cells.Length1, c requires 0 <= c < cells.Length1 reads cells => Num(cells[r, c])))
    }

    lemma NumbersAt()
      ensures forall r, c | 0 <= r < cells.Length0 && 0 <= c < cells.Length1 :: Numbers()[r][c] == Num(cells[r, c])
    {
    }

    /** Row `r` of the matrix holds no tile. */
    ghost predicate RowEmpty(r: int)
      reads cells
      requires 0 <= r < cells.Length0
    {
      forall c | 0 <= c < cells.Length1 :: cells[r, c].None?
    }

    /** A board whose every cell agrees with the matrix is the board the matrix shows. */
    lemma {:induction false} ShowNumbers(g: Grid)
      requires |g| == cells.Length0 && IsGrid(g, cells.Length1)
      requires forall r, c | 0 <= r < cells.Length0 && 0 <= c < cells.Length1 :: Num(cells[r, c]) == g[r][c]
      ensures Numbers() == g
    {
      var n := Numbers();
      forall r | 0 <= r < |g| ensures n[r] == g[r] {
        assert |n[r]| == |g[r]|;
        forall c | 0 <= c < |g[r]| ensures n[r][c] == g[r][c] {
        }
      }
    }

    /** A matrix that differs from `g` only in column `x`, where it shows `col`, shows `g` with that column replaced. */
    lemma {:induction false} ShowColumn(g: Grid, x: int, col: seq<Cell>)
      requires Valid() && |g| == height && IsGrid(g, width) && 0 <= x < width && |col| == height
      requires forall r, c | 0 <= r < height && 0 <= c < width && c != x :: Num(cells[r, c]) == g[r][c]
      requires forall r | 0 <= r < height :: Num(cells[r, x]) == col[r]
      ensures Numbers() == WithColumn(g, width, x, col)
    {
      ShowNumbers(WithColumn(g, width, x, col));
    }

    /** `GameGrid(grid_h, grid_w)`: an empty board, no score, game not over. */
    constructor (h: nat, w: nat)
      ensures Valid() && height == h && width == w && fresh(cells)
      ensures Numbers() == EmptyGrid(h, w)
      ensures score == 0 && !gameOver
    {
      height := h;
      width := w;
      cells := new Option<Tile>[h, w]((_, _) => None);
      score := 0;
      gameOver := false;
      new;
      ShowNumbers(EmptyGrid(h, w));
    }

    /** `is_inside`: the position is a cell of the board. */
    function IsInside(row: int, col: int): (b: bool)
      reads this, cells
      requires Valid()
      ensures b <==> Inside(Numbers(), width, row, col)
    {
      0 <= row < height && 0 <= col < width
    }

    /** `is_occupied`: the position is a cell of the board and holds a tile. */
    function IsOccupied(row: int, col: int): (b: bool)
      reads this, cells
      requires Valid()
      ensures b <==> Inside(Numbers(), width, row, col) && Numbers()[row][col].Some?
    {
      if !IsInside(row, col) then false else cells[row, col].Some?
    }

    /** One matrix assignment, keeping every tile at the cell it records. */
    method Put(r: int, c: int, v: Option<Tile>)
      requires Valid() && 0 <= r < height && 0 <= c < width
      requires v.Some? ==> v.value.y == r && v.value.x == c
      modifies cells
      ensures Valid()
      ensures Numbers() == old(Numbers())[r := old(Numbers())[r][c := Num(v)]]
    {
      ghost var g := Numbers();
      NumbersAt();
      cells[r, c] := v;
      ShowNumbers(g[r := g[r][c := Num(v)]]);
    }

    /**
     * One tile of `update_grid`: off the board or onto an occupied cell it
     * ends the game and is dropped; otherwise it is stored at its position.
     */
    method PlaceTile(t: Tile, ghost g: Grid)
      requires Valid() && Numbers() == g
      modifies this, cells
      ensures Valid() && score == old(score)
      ensures Numbers() == PlaceOne(g, width, t).rows
      ensures gameOver == (old(gameOver) || PlaceOne(g, width, t).over)
    {
      NumbersAt();
      if !IsInside(t.y, t.x) {
        gameOver := true;
      } else if cells[t.y, t.x].Some? {
        gameOver := true;
      } else {
        Put(t.y, t.x, Some(t));
      }
    }

    /** The inner loop of `update_grid`: the tiles of layout column `col`, first row first. */
    method PlaceColumn(layout: Layout, col: nat)
      requires Valid() && WellShaped(layout) && col < |layout[0]|
      modifies this, cells
      ensures Valid() && score == old(score)
      ensures var p := Place(old(Numbers()), width, ColumnTiles(layout, col, |layout|));
        Numbers() == p.rows && gameOver == (old(gameOver) || p.over)
    {
      ghost var g1 := Numbers();
      for row := 0 to |layout|
        invariant Valid() && score == old(score)
        invariant var p := PlaceRows(g1, width, layout, col, row);
          Numbers() == p.rows && gameOver == (old(gameOver) || p.over)
      {
        ghost var p := PlaceRows(g1, width, layout, col, row);
        var cell := layout[row][col];
        if cell.Some? {
          PlaceTile(cell.value, p.rows);
        }
      }
      PlaceRowsTiles(g1, width, layout, col, |layout|);
    }

    /**
     * `update_grid`: the piece's tiles, visited column by column, are stored
     * at their own positions; a tile off the board or onto an occupied cell is
     * dropped and ends the game, and the other tiles are stored regardless.
     */
    method UpdateGrid(layout: Layout) returns (over: bool)
      requires Valid() && WellShaped(layout)
      modifies this, cells
      ensures Valid() && score == old(score)
      ensures Place(old(Numbers()), width, ScanOrder(layout)) == Placed(Numbers(), over)
      ensures gameOver == over
    {
      ghost var g0 := Numbers();
      gameOver := false;
      for col := 0 to |layout[0]|
        invariant Valid() && score == old(score)
        invariant PlaceColumns(g0, width, layout, col) == Placed(Numbers(), gameOver)
      {
        PlaceColumn(layout, col);
      }
      over := gameOver;
      PlaceColumnsScan(g0, width, layout, |layout[0]|);
    }

    // ------------------------------------------------------------ gravity

    /**
     * The move every shift is made of: the tile at row `r`, column `c`
     * records its new position one row lower and takes the empty cell below,
     * and its old cell is emptied.
     */
    method MoveDown(r: int, c: int)
      requires Valid() && 1 <= r < height && 0 <= c < width && cells[r, c].Some? && cells[r - 1, c].None?
      modifies cells
      ensures Valid()
      ensures Num(cells[r - 1, c]) == Num(old(cells[r, c])) && cells[r, c].None?
      ensures forall i, j | 0 <= i < height && 0 <= j < width && (j != c || (i != r && i != r - 1)) :: cells[i, j] == old(cells[i, j])
    {
      var t := cells[r, c].value;
      cells[r - 1, c] := Some(Move(t, 0, -1));
      cells[r, c] := None;
    }

    /**
     * One step of `applyGravity` in column `x`: if the tile in row `y` has an
     * empty cell below it, it slides down until it rests on a tile or on row 0.
     * With rows below `y` already settled, rows up to `y` are settled after.
     */
    method DropTile(x: int, y: int, ghost col: seq<Cell>)
      requires Valid() && 0 <= x < width && 1 <= y < height && |col| == height
      requires forall r | 0 <= r < y :: Num(cells[r, x]) == Packed(Values(col[..y]), y)[r]
      requires Num(cells[y, x]) == col[y]
      modifies cells
      ensures Valid()
      ensures forall r, c | 0 <= r < height && 0 <= c < width && (c != x || y < r) :: cells[r, c] == old(cells[r, c])
      ensures forall r | 0 <= r <= y :: Num(cells[r, x]) == Packed(Values(col[..y + 1]), y + 1)[r]
    {
      ghost var vs := Values(col[..y]);
      ValuesPrefixStep(col, y);
      if cells[y, x].Some? && cells[y - 1, x].None? {
        ghost var v := cells[y, x].value.number;
        var ny := y;
        while ny > 0 && cells[ny - 1, x].None?
          invariant |vs| <= ny <= y
          invariant Valid()
          invariant forall r, c | 0 <= r < height && 0 <= c < width && (c != x || y < r) :: cells[r, c] == old(cells[r, c])
          invariant forall r | 0 <= r < ny :: Num(cells[r, x]) == Packed(vs, y)[r]
          invariant Num(cells[ny, x]) == Some(v)
          invariant forall r | ny < r <= y :: cells[r, x].None?
        {
          MoveDown(ny, x);
          ny := ny - 1;
        }
      }
    }

    /** Column `x` of `applyGravity`: its tiles come to rest on one another from row 0 up, in the same order. */
    method SettleColumn(x: int)
      requires Valid() && 0 <= x < width
      modifies cells
      ensures Valid()
      ensures Numbers() == WithColumn(old(Numbers()), width, x, Settle(Column(old(Numbers()), width, x)))
    {
      ghost var g0 := Numbers();
      ghost var col := Column(g0, width, x);
      NumbersAt();
      if height == 0 {
        ShowNumbers(WithColumn(g0, width, x, Settle(col)));
        return;
      }
      ValuesPrefixStep(col, 0);
      assert col[..0] == [];
      for y := 1 to height
        invariant Valid()
        invariant forall r, c | 0 <= r < height && 0 <= c < width && (c != x || y <= r) :: cells[r, c] == old(cells[r, c])
        invariant forall r | 0 <= r < y :: Num(cells[r, x]) == Packed(Values(col[..y]), y)[r]
      {
        DropTile(x, y, col);
      }
      assert col[..height] == col;
      ShowNumbers(WithColumn(g0, width, x, Settle(col)));
    }

    /** `applyGravity`: every column settled, the score untouched. */
    method ApplyGravity()
      requires Valid()
      modifies cells
      ensures Valid()
      ensures Numbers() == Gravity(old(Numbers()), width)
    {
      ghost var g0 := Numbers();
      for x := 0 to width
        invariant Valid()
        invariant Numbers() == GravityUpTo(g0, width, x)
      {
        SettleColumn(x);
      }
    }

    // ------------------------------------------------------------- merges

    /** The cell moves of a merge's shift: every tile above empty cell `k` of column `x` moves down one row. */
    method ShiftCells(x: int, k: int)
      requires Valid() && 0 <= x < width && 0 <= k < height && cells[k, x].None?
      modifies cells
      ensures Valid()
      ensures forall r, c | 0 <= r < height && 0 <= c < width && (c != x || r < k) :: cells[r, c] == old(cells[r, c])
      ensures forall r | k <= r < height - 1 :: Num(cells[r, x]) == Num(old(cells[r + 1, x]))
      ensures cells[height - 1, x].None?
    {
      for yy := k + 1 to height
        invariant Valid()
        invariant forall r, c | 0 <= r < height && 0 <= c < width && (c != x || r < k || yy <= r) :: cells[r, c] == old(cells[r, c])
        invariant forall r | k <= r < yy - 1 :: Num(cells[r, x]) == Num(old(cells[r + 1, x]))
        invariant cells[yy - 1, x].None?
      {
        if cells[yy, x].Some? {
          MoveDown(yy, x);
        }
      }
    }

    /**
     * The shift of a merge: cell `k` of column `x` is empty, and every cell
     * above it moves down one row, leaving the top cell empty.
     */
    method ShiftColumnDown(x: int, k: int)
      requires Valid() && 0 <= x < width && 0 <= k < height && cells[k, x].None?
      modifies cells
      ensures Valid()
      ensures Numbers() == WithColumn(old(Numbers()), width, x, Drop(Column(old(Numbers()), width, x), k))
    {
      ghost var g0 := Numbers();
      NumbersAt();
      ShiftCells(x, k);
      ShowDrop(g0, x, k);
    }

    /** A matrix that is `g` except that column `x` lost its cell `k` and moved the cells above down one shows `g` with `Drop` applied to that column. */
    lemma {:induction false} ShowDrop(g: Grid, x: int, k: int)
      requires Valid() && |g| == height && IsGrid(g, width) && 0 <= x < width && 0 <= k < height
      requires forall r, c | 0 <= r < height && 0 <= c < width && c != x :: Num(cells[r, c]) == g[r][c]
      requires forall r | 0 <= r < k :: Num(cells[r, x]) == g[r][x]
      requires forall r | k <= r < height - 1 :: Num(cells[r, x]) == g[r + 1][x]
      requires cells[height - 1, x].None?
      ensures Numbers() == WithColumn(g, width, x, Drop(Column(g, width, x), k))
    {
      var col := Column(g, width, x);
      forall r | 0 <= r < height ensures Num(cells[r, x]) == Drop(col, k)[r] {
      }
      ShowColumn(g, x, Drop(col, k));
    }

    /** The two writes of a merge: the lower tile of the pair doubles, the score grows by its new number, and the upper tile goes. */
    method MergePair(x: int, y: int)
      requires Valid() && 0 <= x < width && PairAt(Column(Numbers(), width, x), y)
      modifies this, cells
      ensures Valid() && gameOver == old(gameOver) && cells[y + 1, x].None?
      ensures var col := Column(old(Numbers()), width, x);
        Numbers() == WithColumn(old(Numbers()), width, x, col[y := Some(2 * col[y].value)][y + 1 := None])
      ensures score == old(score) + 2 * Column(old(Numbers()), width, x)[y].value
    {
      ghost var g0 := Numbers();
      ghost var col := Column(g0, width, x);
      ghost var doubled := col[y := Some(2 * col[y].value)][y + 1 := None];
      NumbersAt();
      var bottom := cells[y, x].value;
      cells[y, x] := Some(Tile(2 * bottom.number, bottom.x, bottom.y));
      score := score + 2 * bottom.number;
      cells[y + 1, x] := None;
      forall r | 0 <= r < height ensures Num(cells[r, x]) == doubled[r] {
        if r != y && r != y + 1 {
          assert doubled[r] == col[r];
        }
      }
      ShowColumn(g0, x, doubled);
    }

    /**
     * One merge of `sumCheck` at row `y` of column `x`: the lower tile
     * doubles, the score grows by the new number, the upper tile goes, and
     * every cell above moves down one row.
     */
    method MergeStep(x: int, y: int)
      requires Valid() && 0 <= x < width && PairAt(Column(Numbers(), width, x), y)
      modifies this, cells
      ensures Valid() && gameOver == old(gameOver)
      ensures Numbers() == WithColumn(old(Numbers()), width, x, MergeAt(Column(old(Numbers()), width, x), y))
      ensures score == old(score) + 2 * Column(old(Numbers()), width, x)[y].value
    {
      ghost var g0 := Numbers();
      MergePair(x, y);
      ShiftColumnDown(x, y + 1);
      MergeByShift(g0, width, x, y);
    }

    /**
     * One scan of the merge loop of `sumCheck` in column `x`: from the bottom,
     * the first two adjacent equal tiles are merged and the scan stops; it
     * reports whether it merged.
     */
    method MergeFirstPair(x: int) returns (merged: bool)
      requires Valid() && 0 <= x < width
      modifies this, cells
      ensures Valid() && gameOver == old(gameOver)
      ensures merged <==> FirstPair(Column(old(Numbers()), width, x)).Some?
      ensures !merged ==> Numbers() == old(Numbers()) && score == old(score)
      ensures merged ==>
        var col := Column(old(Numbers()), width, x);
        var y := FirstPair(col).value;
        Numbers() == WithColumn(old(Numbers()), width, x, MergeAt(col, y)) &&
        score == old(score) + 2 * col[y].value
    {
      ghost var col := Column(Numbers(), width, x);
      merged := false;
      var y := 0;
      while y < height - 1
        invariant 0 <= y
        invariant Valid() && gameOver == old(gameOver) && Numbers() == old(Numbers()) && score == old(score)
        invariant forall z | 0 <= z < y :: !PairAt(col, z)
      {
        NumbersAt();
        if cells[y, x].Some? && cells[y + 1, x].Some? && cells[y, x].value.number == cells[y + 1, x].value.number {
          assert PairAt(col, y);
          assert FirstPair(col) == Some(y);
          MergeStep(x, y);
          merged := true;
          break;
        }
        y := y + 1;
      }
    }

    /**
     * The merge loop of `sumCheck` for column `x`: scans repeat until one
     * finds nothing to merge.
     */
    method ResolveColumn(x: int)
      requires Valid() && 0 <= x < width
      modifies this, cells
      ensures Valid() && gameOver == old(gameOver)
      ensures Numbers() == WithColumn(old(Numbers()), width, x, Resolve(Column(old(Numbers()), width, x)).col)
      ensures score == old(score) + Resolve(Column(old(Numbers()), width, x)).gain
    {
      ghost var g0 := Numbers();
      ghost var target := Resolve(Column(g0, width, x));
      ghost var cur := Column(g0, width, x);
      assert WithColumn(g0, width, x, cur) == g0 by {
        GridByColumns(WithColumn(g0, width, x, cur), g0, width) by {
          forall c | 0 <= c < width ensures Column(WithColumn(g0, width, x, cur), width, c) == Column(g0, width, c) {
            ColumnOfWith(g0, width, x, cur, c);
          }
        }
      }
      var merged := true;
      while merged
        invariant Valid() && gameOver == old(gameOver) && |cur| == height
        invariant Numbers() == WithColumn(g0, width, x, cur)
        invariant Resolve(cur).col == target.col
        invariant old(score) + target.gain == score + Resolve(cur).gain
        invariant !merged ==> FirstPair(cur).None?
        decreases |Values(cur)| + (if merged then 1 else 0)
      {
        ColumnOfWith(g0, width, x, cur, x);
        merged := MergeFirstPair(x);
        if merged {
          ghost var y := FirstPair(cur).value;
          MergeAtFacts(cur, y);
          WithColumnTwice(g0, width, x, cur, MergeAt(cur, y));
          cur := MergeAt(cur, y);
        }
      }
    }

    /**
     * `sumCheck`: the merge loop on every candidate column, in any order,
     * then gravity on the whole board.
     */
    method SumCheck(columnSet: set<int>)
      requires Valid() && ColumnsInRange(columnSet, width)
      modifies this, cells
      ensures Valid() && gameOver == old(gameOver)
      ensures Numbers() == SumCheckOutcome(old(Numbers()), width, columnSet).rows
      ensures score == old(score) + SumCheckOutcome(old(Numbers()), width, columnSet).gain
    {
      ghost var g0 := Numbers();
      MergeNothing(g0, width, width);
      var remaining := columnSet;
      ghost var done: set<int> := {};
      while remaining != {}
        invariant Valid() && gameOver == old(gameOver)
        invariant remaining + done == columnSet && remaining !! done
        invariant Numbers() == MergeColumns(g0, width, done)
        invariant score == old(score) + MergeGain(g0, width, done, width)
        decreases |remaining|
      {
        ghost var some := Member(remaining);
        var x :| x in remaining;
        MergeColumnsStep(g0, width, done, x);
        ResolveColumn(x);
        remaining := remaining - {x};
        done := done + {x};
      }
      assert done == columnSet;
      ApplyGravity();
    }

    // -------------------------------------------------------- row clearing

    /** The fullness test of `rowCheck`: every cell of row `y` holds a tile. */
    function RowIsFull(y: int): (b: bool)
      reads this, cells
      requires Valid() && 0 <= y < height
      ensures b <==> Full(Numbers()[y])
    {
      NumbersAt();
      forall x | 0 <= x < width :: cells[y, x].Some?
    }

    /** Clearing full row `y`, whose numbers are `row`: the score grows by each number in turn and every cell of the row is emptied. */
    method ClearCells(y: int, ghost row: seq<Cell>)
      requires Valid() && 0 <= y < height && |row| == width && Full(row)
      requires forall c | 0 <= c < width :: Num(cells[y, c]) == row[c]
      modifies this, cells
      ensures Valid() && gameOver == old(gameOver)
      ensures forall r, c | 0 <= r < height && 0 <= c < width && r != y :: cells[r, c] == old(cells[r, c])
      ensures RowEmpty(y)
      ensures score == old(score) + RowSum(row)
    {
      for x := 0 to width
        invariant Valid() && gameOver == old(gameOver)
        invariant forall r, c | 0 <= r < height && 0 <= c < width && (r != y || x <= c) :: cells[r, c] == old(cells[r, c])
        invariant forall c | 0 <= c < x :: cells[y, c].None?
        invariant score == old(score) + Sum(Values(row[..x]))
      {
        ValuesPrefixStep(row, x);
        SumAppend(Values(row[..x]), [row[x].value]);
        score := score + cells[y, x].value.number;
        cells[y, x] := None;
      }
      assert row[..width] == row;
    }

    /** One row of the drop after a clear: every tile of row `yy` moves down into the empty row below it. */
    method ShiftRowDown(yy: int)
      requires Valid() && 1 <= yy < height
      requires RowEmpty(yy - 1)
      modifies cells
      ensures Valid()
      ensures forall r, c | 0 <= r < height && 0 <= c < width && r != yy - 1 && r != yy :: cells[r, c] == old(cells[r, c])
      ensures forall c | 0 <= c < width :: Num(cells[yy - 1, c]) == Num(old(cells[yy, c])) && cells[yy, c].None?
    {
      for x := 0 to width
        invariant Valid()
        invariant forall r, c | 0 <= r < height && 0 <= c < width && ((r != yy - 1 && r != yy) || x <= c) :: cells[r, c] == old(cells[r, c])
        invariant forall c | 0 <= c < x :: Num(cells[yy - 1, c]) == Num(old(cells[yy, c])) && cells[yy, c].None?
      {
        if cells[yy, x].Some? {
          MoveDown(yy, x);
        }
      }
    }

    /** The drop after clearing row `y`: every row above it, bottom to top, moves down one row. */
    method DropRowsAbove(y: int)
      requires Valid() && 0 <= y < height
      requires RowEmpty(y)
      modifies cells
      ensures Valid()
      ensures forall r, c | 0 <= r < y && 0 <= c < width :: cells[r, c] == old(cells[r, c])
      ensures forall r, c | y <= r < height - 1 && 0 <= c < width :: Num(cells[r, c]) == Num(old(cells[r + 1, c]))
      ensures RowEmpty(height - 1)
    {
      for yy := y + 1 to height
        invariant Valid()
        invariant forall r, c | 0 <= r < y && 0 <= c < width :: cells[r, c] == old(cells[r, c])
        invariant forall r, c | yy <= r < height && 0 <= c < width :: cells[r, c] == old(cells[r, c])
        invariant forall r, c | y <= r < yy - 1 && 0 <= c < width :: Num(cells[r, c]) == Num(old(cells[r + 1, c]))
        invariant RowEmpty(yy - 1)
      {
        label before:
        ShiftRowDown(yy);
        forall r, c | y <= r < yy && 0 <= c < width ensures Num(cells[r, c]) == Num(old(cells[r + 1, c])) {
          if r < yy - 1 {
            assert cells[r, c] == old@before(cells[r, c]);
          } else {
            assert old@before(cells[yy, c]) == old(cells[yy, c]);
          }
        }
      }
    }

    /** A matrix that is `g` with row `y` removed, the rows above moved down one and an empty top row shows `ClearRow(g, width, y)`. */
    lemma {:induction false} ShowClearRow(g: Grid, y: int)
      requires Valid() && |g| == height && IsGrid(g, width) && 0 <= y < height
      requires forall r, c | 0 <= r < y && 0 <= c < width :: Num(cells[r, c]) == g[r][c]
      requires forall r, c | y <= r < height - 1 && 0 <= c < width :: Num(cells[r, c]) == g[r + 1][c]
      requires RowEmpty(height - 1)
      ensures Numbers() == ClearRow(g, width, y)
    {
      var cleared := ClearRow(g, width, y);
      forall r, c | 0 <= r < height && 0 <= c < width ensures Num(cells[r, c]) == cleared[r][c] {
        if r < y {
          assert cleared[r] == g[r];
        } else if r < height - 1 {
          assert cleared[r] == g[r + 1];
        } else {
          assert cleared[r] == EmptyRow(width);
          assert cells[r, c].None?;
        }
      }
      ShowNumbers(cleared);
    }

    /**
     * The body of `rowCheck` for a full row `y` of board `g`: its numbers are
     * added to the score, the row is emptied and every row above it moves
     * down one row.
     */
    method ClearFullRow(y: int, ghost g: Grid)
      requires Valid() && 0 <= y < height && Numbers() == g && Full(g[y])
      modifies this, cells
      ensures Valid() && gameOver == old(gameOver)
      ensures Numbers() == ClearRow(g, width, y)
      ensures score == old(score) + RowSum(g[y])
    {
      NumbersAt();
      ClearCells(y, g[y]);
      DropRowsAbove(y);
      ShowClearRow(g, y);
    }

    /**
     * `rowCheck`: the candidate rows that are rows of the board, in ascending
     * order, each tested on the board as it is at that moment and cleared
     * when full; then gravity.
     */
    method RowCheck(rowSet: set<int>) returns (cleared: nat)
      requires Valid()
      modifies this, cells
      ensures Valid() && gameOver == old(gameOver)
      ensures Numbers() == RowCheckOutcome(old(Numbers()), width, rowSet).rows
      ensures score == old(score) + RowCheckOutcome(old(Numbers()), width, rowSet).gain
      ensures var ys := SortedRows(rowSet, height); cleared == RowPass(old(Numbers()), width, ys, |ys|).count
    {
      ghost var g0 := Numbers();
      var validRows := SortedRows(rowSet, height);
      cleared := 0;
      for i := 0 to |validRows|
        invariant Valid() && gameOver == old(gameOver)
        invariant Numbers() == RowPass(g0, width, validRows, i).rows
        invariant score == old(score) + RowPass(g0, width, validRows, i).gain
        invariant cleared == RowPass(g0, width, validRows, i).count
      {
        ghost var p := RowPass(g0, width, validRows, i);
        var y := validRows[i];
        if RowIsFull(y) {
          ClearFullRow(y, p.rows);
          cleared := cleared + 1;
        }
      }
      ApplyGravity();
    }
  }
}
