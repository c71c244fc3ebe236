/**
 * Row clearing (`rowCheck`): the candidate rows, visited once each in
 * ascending order, and the clearing of a full row with everything above it
 * moving down one row.
 */
module RowClearing {
  import opened Tiles
  import opened Columns
  import opened Boards

  /** Every cell of the row holds a tile. */
  predicate Full(row: seq<Cell>)
  {
    forall c | 0 <= c < |row| :: row[c].Some?
  }

  /** The total of a row's numbers. */
  function RowSum(row: seq<Cell>): nat
  {
    Sum(Values(row))
  }

  /** Row `y` removed: the rows below stay, each row above moves down one, and an empty row enters at the top. */
  function ClearRow(g: Grid, w: nat, y: int): (g': Grid)
    requires IsGrid(g, w) && 0 <= y < |g|
    ensures IsGrid(g', w) && |g'| == |g|
  {
    var g' := seq(|g|, r requires 0 <= r < |g| => if r < y then g[r] else if r + 1 < |g| then g[r + 1] else EmptyRow(w));
    assert forall r | 0 <= r < |g'| :: |g'[r]| == w by {
      forall r | 0 <= r < |g'| ensures |g'[r]| == w {
        if r < y {
          assert g'[r] == g[r];
        } else if r + 1 < |g| {
          assert g'[r] == g[r + 1];
        } else {
          assert g'[r] == EmptyRow(w);
        }
      }
    }
    g'
  }

  /** The members of `s` in `lo .. h - 1`, in ascending order. */
  function RowsFrom(s: set<int>, lo: nat, h: nat): (ys: seq<int>)
    ensures forall i | 0 <= i < |ys| :: lo <= ys[i] < h && ys[i] in s
    ensures forall y | y in s && lo <= y < h :: y in ys
    ensures forall i, j | 0 <= i < j < |ys| :: ys[i] < ys[j]
    decreases h - lo
  {
    if lo >= h then [] else (if lo in s then [lo] else []) + RowsFrom(s, lo + 1, h)
  }

  /** The candidate rows that are rows of the board, sorted ascending: exactly those, each once. */
  function SortedRows(s: set<int>, h: nat): (ys: seq<int>)
    ensures forall i | 0 <= i < |ys| :: 0 <= ys[i] < h && ys[i] in s
    ensures forall y | y in s && 0 <= y < h :: y in ys
    ensures forall i, j | 0 <= i < j < |ys| :: ys[i] < ys[j]
  {
    RowsFrom(s, 0, h)
  }

  /** What a pass over candidate rows leaves: the board, the score earned and the number of rows cleared. */
  datatype Cleared = Cleared(rows: Grid, gain: nat, count: nat)

  predicate RowsInRange(ys: seq<int>, h: nat)
  {
    forall i | 0 <= i < |ys| :: 0 <= ys[i] < h
  }

  /**
   * The clearing loop over the first `n` listed rows: each row index, in list
   * order, is tested on the board as it is at that moment, and cleared when
   * full. Indices are never re-derived after a clear.
   */
  function RowPass(g: Grid, w: nat, ys: seq<int>, n: nat): (p: Cleared)
    requires IsGrid(g, w) && RowsInRange(ys, |g|) && n <= |ys|
    ensures IsGrid(p.rows, w) && |p.rows| == |g|
  {
    if n == 0 then Cleared(g, 0, 0)
    else
      var p := RowPass(g, w, ys, n - 1);
      var y := ys[n - 1];
      if Full(p.rows[y]) then Cleared(ClearRow(p.rows, w, y), p.gain + RowSum(p.rows[y]), p.count + 1)
      else p
  }

  /** `rowCheck`: the clearing pass over the sorted in-range candidates, then gravity. */
  function RowCheckOutcome(g: Grid, w: nat, rowSet: set<int>): Scored
    requires IsGrid(g, w)
  {
    var ys := SortedRows(rowSet, |g|);
    var p := RowPass(g, w, ys, |ys|);
    Scored(Gravity(p.rows, w), p.gain)
  }

  // ------------------------------------------------- what clearing conserves

  /** All numbers on the board, row after row. */
  function BoardValues(g: Grid): seq<nat>
  {
    if g == [] then [] else BoardValues(g[..|g| - 1]) + Values(g[|g| - 1])
  }

  lemma {:induction false} BoardValuesSnoc(g: Grid, row: seq<Cell>)
    ensures BoardValues(g + [row]) == BoardValues(g) + Values(row)
  {
    assert (g + [row])[..|g|] == g;
  }

  lemma {:induction false} BoardValuesAppend(a: Grid, b: Grid)
    ensures BoardValues(a + b) == BoardValues(a) + BoardValues(b)
  {
    if b == [] {
      assert a + b == a;
    } else {
      var init, last := b[..|b| - 1], b[|b| - 1];
      assert b == init + [last];
      assert a + b == (a + init) + [last];
      BoardValuesAppend(a, init);
      BoardValuesSnoc(a + init, last);
      BoardValuesSnoc(init, last);
    }
  }

  lemma {:induction false} FullRowValues(row: seq<Cell>)
    requires Full(row)
    ensures |Values(row)| == |row|
  {
    if row != [] {
      FullRowValues(row[..|row| - 1]);
    }
  }

  lemma {:induction false} EmptyRowValues(w: nat)
    ensures Values(EmptyRow(w)) == []
  {
    if w > 0 {
      EmptyRowValues(w - 1);
      assert EmptyRow(w)[..w - 1] == EmptyRow(w - 1);
    }
  }

  /** Clearing row `y` keeps the rows below, moves each row above down one and adds an empty row on top. */
  lemma {:induction false} ClearRowShape(g: Grid, w: nat, y: int)
    requires IsGrid(g, w) && 0 <= y < |g|
    ensures ClearRow(g, w, y) == g[..y] + g[y + 1..] + [EmptyRow(w)]
  {
    var c, r := ClearRow(g, w, y), g[..y] + g[y + 1..] + [EmptyRow(w)];
    assert |c| == |r|;
    forall i | 0 <= i < |c| ensures c[i] == r[i] {
      if i < y {
        assert r[i] == g[..y][i];
      } else if i < |g| - 1 {
        assert r[i] == g[y + 1..][i - y];
      }
    }
  }

  /**
   * Clearing a full row removes exactly its tiles from the board: the board's
   * total drops by the row's sum (which the score gains) and its tile count by
   * the width.
   */
  lemma {:induction false} ClearRowConserves(g: Grid, w: nat, y: int)
    requires IsGrid(g, w) && 0 <= y < |g| && Full(g[y])
    ensures Sum(BoardValues(ClearRow(g, w, y))) + RowSum(g[y]) == Sum(BoardValues(g))
    ensures |BoardValues(ClearRow(g, w, y))| + w == |BoardValues(g)|
  {
    var below, above := g[..y], g[y + 1..];
    var e: Grid := [EmptyRow(w)];
    var one: Grid := [g[y]];
    ClearRowShape(g, w, y);
    assert g == below + one + above;
    BoardValuesAppend(below + above, e);
    BoardValuesAppend(below, above);
    BoardValuesAppend(below + one, above);
    BoardValuesAppend(below, one);
    assert e[..0] == [] && one[..0] == [];
    EmptyRowValues(w);
    FullRowValues(g[y]);
    var vb, va, vy := BoardValues(below), BoardValues(above), Values(g[y]);
    assert BoardValues(ClearRow(g, w, y)) == vb + va + [];
    assert BoardValues(g) == vb + vy + va;
    SumAppend(vb + va, []);
    SumAppend(vb, va);
    SumAppend(vb + vy, va);
    SumAppend(vb, vy);
  }

  lemma {:induction false} MulSucc(w: nat, n: nat)
    ensures w * (n + 1) == w * n + w
  {
  }

  /**
   * What a clearing pass keeps: the board's total plus the score earned is the
   * starting total, exactly `w` tiles leave the board per cleared row, and no
   * more rows are cleared than were visited.
   */
  predicate PassConserves(g: Grid, w: nat, ys: seq<int>, n: nat)
    requires IsGrid(g, w) && RowsInRange(ys, |g|) && n <= |ys|
  {
    var p := RowPass(g, w, ys, n);
    && Sum(BoardValues(p.rows)) + p.gain == Sum(BoardValues(g))
    && |BoardValues(p.rows)| + w * p.count == |BoardValues(g)|
    && p.count <= n
  }

  /** Clearing one more full row keeps the board's total plus the score, and takes `w` more tiles off the board. */
  lemma {:induction false} ClearKeepsTotals(w: nat, p: Cleared, y: int, q: Cleared, total: nat, tiles: nat)
    requires IsGrid(p.rows, w) && 0 <= y < |p.rows| && Full(p.rows[y])
    requires q.rows == ClearRow(p.rows, w, y) && q.gain == p.gain + RowSum(p.rows[y]) && q.count == p.count + 1
    requires Sum(BoardValues(p.rows)) + p.gain == total && |BoardValues(p.rows)| + w * p.count == tiles
    ensures Sum(BoardValues(q.rows)) + q.gain == total && |BoardValues(q.rows)| + w * q.count == tiles
  {
    ClearRowConserves(p.rows, w, y);
    MulSucc(w, p.count);
  }

  /** One more visited row keeps what the pass conserves: either nothing is cleared or one full row of `w` tiles is. */
  lemma {:induction false} RowPassStep(g: Grid, w: nat, ys: seq<int>, n: nat)
    requires IsGrid(g, w) && RowsInRange(ys, |g|) && 0 < n <= |ys|
    requires PassConserves(g, w, ys, n - 1)
    ensures PassConserves(g, w, ys, n)
  {
    var p, y, q := RowPass(g, w, ys, n - 1), ys[n - 1], RowPass(g, w, ys, n);
    if Full(p.rows[y]) {
      ClearKeepsTotals(w, p, y, q, Sum(BoardValues(g)), |BoardValues(g)|);
    }
  }

  /**
   * A clearing pass conserves the board's total plus the score it earns, and
   * removes exactly `width` tiles per cleared row; it clears each visited row
   * at most once.
   */
  lemma {:induction false} RowPassFacts(g: Grid, w: nat, ys: seq<int>, n: nat)
    requires IsGrid(g, w) && RowsInRange(ys, |g|) && n <= |ys|
    ensures PassConserves(g, w, ys, n)
  {
    var i := 0;
    while i < n
      invariant i <= n && PassConserves(g, w, ys, i)
    {
      RowPassStep(g, w, ys, i + 1);
      i := i + 1;
    }
  }

  /** A one-row board whose two cells hold 2 and 2 is cleared and earns 4. */
  lemma ClearSingleFullRow()
    ensures RowPass([[Some(2), Some(2)]], 2, [0], 1) == Cleared([[None, None]], 4, 1)
  {
    var row: seq<Cell> := [Some(2), Some(2)];
    var g: Grid := [row];
    var ys: seq<int> := [0];
    assert RowPass(g, 2, ys, 0) == Cleared(g, 0, 0);
    assert Full(row);
    var two: seq<nat> := [2, 2];
    assert Values(row) == two by {
      assert row[..1][..0] == [];
      assert Values(row[..1]) == [2];
    }
    assert Sum(two) == 4 by {
      assert two[..1][..0] == [];
      assert Sum(two[..1]) == 2;
    }
    assert EmptyRow(2) == [None, None];
    assert ClearRow(g, 2, 0) == [[None, None]];
  }

  /** The candidate set {0, 1} on a three-row board is visited bottom-up. */
  lemma TwoCandidatesInOrder()
    ensures SortedRows({0, 1}, 3) == [0, 1]
  {
    var s: set<int> := {0, 1};
    assert RowsFrom(s, 3, 3) == [];
    assert RowsFrom(s, 2, 3) == [];
    assert RowsFrom(s, 1, 3) == [1];
    assert RowsFrom(s, 0, 3) == [0, 1];
  }

  /**
   * Candidate rows 0 and 1 are both full. Clearing row 0 moves the old row 1
   * down to index 0, which the pass has already visited, so that full row
   * stays on the board.
   */
  lemma ShiftedFullRowStays()
    ensures RowPass([[Some(2)], [Some(4)], [None]], 1, [0, 1], 2) == Cleared([[Some(4)], [None], [None]], 2, 1)
    ensures Full(RowPass([[Some(2)], [Some(4)], [None]], 1, [0, 1], 2).rows[0])
  {
    var g: Grid := [[Some(2)], [Some(4)], [None]];
    var ys: seq<int> := [0, 1];
    assert RowPass(g, 1, ys, 0) == Cleared(g, 0, 0);
    var r0: seq<Cell> := [Some(2)];
    var v0: seq<nat> := [2];
    assert Values(r0) == v0 by { assert r0[..0] == []; }
    assert Sum(v0) == 2 by { assert v0[..0] == []; }
    assert Full(g[0]);
    var after := ClearRow(g, 1, 0);
    assert EmptyRow(1) == [None];
    assert after == [[Some(4)], [None], [None]];
    assert RowPass(g, 1, ys, 1) == Cleared(after, 2, 1);
    assert after[1][0] == None;
  }
}
