/**
 * The board as a value: a list of rows (row 0 at the bottom) of cells, seen
 * column by column for gravity and for merges.
 */
module Boards {
  import opened Tiles
  import opened Columns

  type Grid = seq<seq<Cell>>

  /** Every row has `w` cells. */
  predicate IsGrid(g: Grid, w: nat)
  {
    forall r | 0 <= r < |g| :: |g[r]| == w
  }

  function EmptyRow(w: nat): (row: seq<Cell>)
    ensures |row| == w
  {
    seq(w, _ => None)
  }

  function EmptyGrid(h: nat, w: nat): (g: Grid)
    ensures |g| == h && IsGrid(g, w)
  {
    seq(h, _ => EmptyRow(w))
  }

  /** `is_inside(row, col)` on a board of `|g|` rows and `w` columns. */
  predicate Inside(g: Grid, w: nat, r: int, c: int)
  {
    0 <= r < |g| && 0 <= c < w
  }

  /** Column `x`, bottom row first. */
  function Column(g: Grid, w: nat, x: int): (col: seq<Cell>)
    requires IsGrid(g, w) && 0 <= x < w
    ensures |col| == |g|
  {
    seq(|g|, r requires 0 <= r < |g| => g[r][x])
  }

  /** The board with column `x` replaced by `col`. */
  function WithColumn(g: Grid, w: nat, x: int, col: seq<Cell>): (g': Grid)
    requires IsGrid(g, w) && 0 <= x < w && |col| == |g|
    ensures IsGrid(g', w) && |g'| == |g|
  {
    seq(|g|, r requires 0 <= r < |g| => g[r][x := col[r]])
  }

  lemma {:induction false} ColumnOfWith(g: Grid, w: nat, x: int, col: seq<Cell>, c: int)
    requires IsGrid(g, w) && 0 <= x < w && |col| == |g| && 0 <= c < w
    ensures Column(WithColumn(g, w, x, col), w, c) == if c == x then col else Column(g, w, c)
  {
  }

  lemma {:induction false} WithColumnTwice(g: Grid, w: nat, x: int, a: seq<Cell>, b: seq<Cell>)
    requires IsGrid(g, w) && 0 <= x < w && |a| == |g| == |b|
    ensures WithColumn(WithColumn(g, w, x, a), w, x, b) == WithColumn(g, w, x, b)
  {
    var l, rt := WithColumn(WithColumn(g, w, x, a), w, x, b), WithColumn(g, w, x, b);
    forall r | 0 <= r < |g| ensures l[r] == rt[r] {
      assert l[r] == g[r][x := a[r]][x := b[r]];
    }
  }

  /** Two boards of the same shape are equal when all their columns are. */
  lemma {:induction false} GridByColumns(a: Grid, b: Grid, w: nat)
    requires IsGrid(a, w) && IsGrid(b, w) && |a| == |b|
    requires forall c | 0 <= c < w :: Column(a, w, c) == Column(b, w, c)
    ensures a == b
  {
    forall r | 0 <= r < |a| ensures a[r] == b[r] {
      forall c | 0 <= c < w ensures a[r][c] == b[r][c] {
        assert Column(a, w, c)[r] == Column(b, w, c)[r];
      }
    }
  }

  // ---------------------------------------------------------------- gravity

  /** Gravity applied to columns `0 .. n - 1`, one column after another. */
  function GravityUpTo(g: Grid, w: nat, n: nat): (g': Grid)
    requires IsGrid(g, w) && n <= w
    ensures IsGrid(g', w) && |g'| == |g|
  {
    if n == 0 then g
    else
      var p := GravityUpTo(g, w, n - 1);
      WithColumn(p, w, n - 1, Settle(Column(p, w, n - 1)))
  }

  /** `applyGravity`: every column settled. */
  function Gravity(g: Grid, w: nat): (g': Grid)
    requires IsGrid(g, w)
    ensures IsGrid(g', w) && |g'| == |g|
  {
    GravityUpTo(g, w, w)
  }

  lemma {:induction false} GravityUpToColumn(g: Grid, w: nat, n: nat, c: int)
    requires IsGrid(g, w) && n <= w && 0 <= c < w
    ensures Column(GravityUpTo(g, w, n), w, c) == if c < n then Settle(Column(g, w, c)) else Column(g, w, c)
  {
    if n > 0 {
      var p := GravityUpTo(g, w, n - 1);
      GravityUpToColumn(g, w, n - 1, c);
      ColumnOfWith(p, w, n - 1, Settle(Column(p, w, n - 1)), c);
      if c == n - 1 {
        assert Column(p, w, c) == Column(g, w, c);
      }
    }
  }

  /**
   * After gravity every column is its old column settled: no tile floats, and
   * each column keeps its tiles in their bottom-to-top order.
   */
  lemma {:induction false} GravityColumns(g: Grid, w: nat)
    requires IsGrid(g, w)
    ensures forall c | 0 <= c < w :: Column(Gravity(g, w), w, c) == Settle(Column(g, w, c))
    ensures forall c | 0 <= c < w :: Settled(Column(Gravity(g, w), w, c))
    ensures forall c | 0 <= c < w :: Values(Column(Gravity(g, w), w, c)) == Values(Column(g, w, c))
  {
    forall c | 0 <= c < w
      ensures Column(Gravity(g, w), w, c) == Settle(Column(g, w, c))
      ensures Settled(Column(Gravity(g, w), w, c))
      ensures Values(Column(Gravity(g, w), w, c)) == Values(Column(g, w, c))
    {
      GravityUpToColumn(g, w, w, c);
      SettleSpec(Column(g, w, c));
    }
  }

  /** A second gravity pass moves nothing; gravity changes a board exactly when some tile floats. */
  lemma {:induction false} GravityIdempotent(g: Grid, w: nat)
    requires IsGrid(g, w)
    ensures Gravity(Gravity(g, w), w) == Gravity(g, w)
    ensures Gravity(g, w) == g <==> forall c | 0 <= c < w :: Settled(Column(g, w, c))
  {
    var s := Gravity(g, w);
    GravityColumns(g, w);
    GravityColumns(s, w);
    forall c | 0 <= c < w ensures Column(Gravity(s, w), w, c) == Column(s, w, c) {
      SettleFixpoint(Column(g, w, c));
    }
    GridByColumns(Gravity(s, w), s, w);
    if forall c | 0 <= c < w :: Settled(Column(g, w, c)) {
      forall c | 0 <= c < w ensures Column(s, w, c) == Column(g, w, c) {
        SettleFixpoint(Column(g, w, c));
      }
      GridByColumns(s, g, w);
    }
  }

  // ------------------------------------------------------------------ merges

  /** Every candidate column is a column of the board. */
  predicate ColumnsInRange(xs: set<int>, w: nat)
  {
    forall x | x in xs :: 0 <= x < w
  }

  /** The board after resolving the merges of each candidate column, before gravity. */
  function MergeColumns(g: Grid, w: nat, xs: set<int>): (g': Grid)
    requires IsGrid(g, w)
    ensures IsGrid(g', w) && |g'| == |g|
  {
    seq(|g|, r requires 0 <= r < |g| =>
      seq(w, c requires 0 <= c < w => if c in xs then Resolve(Column(g, w, c)).col[r] else g[r][c]))
  }

  /** The score the merges of the candidate columns below `n` earn. */
  function MergeGain(g: Grid, w: nat, xs: set<int>, n: nat): nat
    requires IsGrid(g, w) && n <= w
  {
    if n == 0 then 0
    else MergeGain(g, w, xs, n - 1) + (if n - 1 in xs then Resolve(Column(g, w, n - 1)).gain else 0)
  }

  /**
   * Merging touches only the candidate columns; each of them ends with no two
   * adjacent equal tiles and with its total unchanged.
   */
  lemma {:induction false} MergeColumnsSpec(g: Grid, w: nat, xs: set<int>, c: int)
    requires IsGrid(g, w) && 0 <= c < w
    ensures c !in xs ==> Column(MergeColumns(g, w, xs), w, c) == Column(g, w, c)
    ensures c in xs ==> Column(MergeColumns(g, w, xs), w, c) == Resolve(Column(g, w, c)).col
    ensures NoPairs(Column(MergeColumns(g, w, xs), w, c)) || c !in xs
    ensures Sum(Values(Column(MergeColumns(g, w, xs), w, c))) == Sum(Values(Column(g, w, c)))
  {
    ResolveFacts(Column(g, w, c));
  }

  lemma {:induction false} MergeGainAdd(g: Grid, w: nat, xs: set<int>, x: int, n: nat)
    requires IsGrid(g, w) && n <= w && x !in xs && 0 <= x < w
    ensures MergeGain(g, w, xs + {x}, n) == MergeGain(g, w, xs, n) + (if x < n then Resolve(Column(g, w, x)).gain else 0)
  {
    if n > 0 {
      MergeGainAdd(g, w, xs, x, n - 1);
    }
  }

  /** With no candidate column, merging changes nothing and earns nothing. */
  lemma {:induction false} MergeNothing(g: Grid, w: nat, n: nat)
    requires IsGrid(g, w) && n <= w
    ensures MergeColumns(g, w, {}) == g
    ensures MergeGain(g, w, {}, n) == 0
  {
    var m := MergeColumns(g, w, {});
    forall r | 0 <= r < |g| ensures m[r] == g[r] {
      assert |m[r]| == |g[r]|;
    }
    if n > 0 {
      MergeNothing(g, w, n - 1);
    }
  }

  /** Column `c` of the board with column `x` resolved on top of the merges of `done` is column `c` of the merges of `done + {x}`. */
  lemma {:induction false} MergeColumnsExtendAt(g: Grid, w: nat, done: set<int>, x: int, c: int)
    requires IsGrid(g, w) && 0 <= x < w && x !in done && 0 <= c < w
    ensures Column(WithColumn(MergeColumns(g, w, done), w, x, Resolve(Column(g, w, x)).col), w, c) == Column(MergeColumns(g, w, done + {x}), w, c)
  {
    var m, m', col := MergeColumns(g, w, done), MergeColumns(g, w, done + {x}), Resolve(Column(g, w, x)).col;
    ColumnOfWith(m, w, x, col, c);
    MergeColumnsSpec(g, w, done + {x}, c);
    if c == x {
      assert Column(m', w, c) == col;
    } else {
      MergeColumnsSpec(g, w, done, c);
      assert Column(m', w, c) == Column(m, w, c);
    }
  }

  /** Resolving one more column of the board extends the merged board and its earnings by that column. */
  lemma {:induction false} MergeColumnsStep(g: Grid, w: nat, done: set<int>, x: int)
    requires IsGrid(g, w) && 0 <= x < w && x !in done
    ensures Column(MergeColumns(g, w, done), w, x) == Column(g, w, x)
    ensures WithColumn(MergeColumns(g, w, done), w, x, Resolve(Column(g, w, x)).col) == MergeColumns(g, w, done + {x})
    ensures MergeGain(g, w, done + {x}, w) == MergeGain(g, w, done, w) + Resolve(Column(g, w, x)).gain
  {
    MergeColumnsSpec(g, w, done, x);
    var l := WithColumn(MergeColumns(g, w, done), w, x, Resolve(Column(g, w, x)).col);
    var rt := MergeColumns(g, w, done + {x});
    forall c | 0 <= c < w ensures Column(l, w, c) == Column(rt, w, c) {
      MergeColumnsExtendAt(g, w, done, x, c);
    }
    GridByColumns(l, rt, w);
    MergeGainAdd(g, w, done, x, w);
  }

  /**
   * A merge done in two moves: first the lower tile of the pair doubles and
   * the upper one goes, then the cells above the emptied one shift down.
   */
  lemma {:induction false} MergeByShift(g: Grid, w: nat, x: int, y: nat)
    requires IsGrid(g, w) && 0 <= x < w && PairAt(Column(g, w, x), y)
    ensures var col := Column(g, w, x);
      var doubled := col[y := Some(2 * col[y].value)][y + 1 := None];
      var g1 := WithColumn(g, w, x, doubled);
      WithColumn(g1, w, x, Drop(Column(g1, w, x), y + 1)) == WithColumn(g, w, x, MergeAt(col, y))
  {
    var col := Column(g, w, x);
    var doubled := col[y := Some(2 * col[y].value)][y + 1 := None];
    ColumnOfWith(g, w, x, doubled, x);
    WithColumnTwice(g, w, x, doubled, Drop(doubled, y + 1));
    MergeAtIsDrop(col, y);
  }

  /** A board together with the score an operation earned on it. */
  datatype Scored = Scored(rows: Grid, gain: nat)

  /** `sumCheck`: merge the candidate columns, then apply gravity to the whole board. */
  function SumCheckOutcome(g: Grid, w: nat, xs: set<int>): Scored
    requires IsGrid(g, w)
  {
    Scored(Gravity(MergeColumns(g, w, xs), w), MergeGain(g, w, xs, w))
  }
}
