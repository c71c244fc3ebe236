/**
 * One column of the board as a sequence of cells, bottom row first, and the
 * two column operations of the grid: gravity and vertical 2048-style merges.
 */
module Columns {
  import opened Tiles

  /** The numbers of a column's occupied cells, bottom to top. */
  function Values(col: seq<Cell>): (vs: seq<nat>)
    ensures |vs| <= |col|
  {
    if col == [] then []
    else Values(col[..|col| - 1]) + (if col[|col| - 1].Some? then [col[|col| - 1].value] else [])
  }

  function Sum(vs: seq<nat>): nat
  {
    if vs == [] then 0 else Sum(vs[..|vs| - 1]) + vs[|vs| - 1]
  }

  lemma {:induction false} SumAppend(a: seq<nat>, b: seq<nat>)
    ensures Sum(a + b) == Sum(a) + Sum(b)
  {
    if b == [] {
      assert a + b == a;
    } else {
      SumAppend(a, b[..|b| - 1]);
      assert (a + b)[..|a + b| - 1] == a + b[..|b| - 1];
    }
  }

  lemma {:induction false} ValuesAppend(a: seq<Cell>, b: seq<Cell>)
    ensures Values(a + b) == Values(a) + Values(b)
  {
    if b == [] {
      assert a + b == a;
    } else {
      ValuesAppend(a, b[..|b| - 1]);
      assert (a + b)[..|a + b| - 1] == a + b[..|b| - 1];
    }
  }

  /** The last step of `Values` on a prefix, as the loops over a column need it. */
  lemma {:induction false} ValuesPrefixStep(col: seq<Cell>, k: nat)
    requires k < |col|
    ensures Values(col[..k + 1]) == Values(col[..k]) + (if col[k].Some? then [col[k].value] else [])
  {
    assert col[..k + 1][..k] == col[..k];
  }

  // ---------------------------------------------------------------- gravity

  /** `vs` stacked from row 0 upwards in a column of height `n`, empty above. */
  function Packed(vs: seq<nat>, n: nat): seq<Cell>
    requires |vs| <= n
  {
    seq(n, i requires 0 <= i < n => if i < |vs| then Some(vs[i]) else None)
  }

  /** A column after gravity: its tiles resting on one another from the bottom, in the same order. */
  function Settle(col: seq<Cell>): seq<Cell>
  {
    Packed(Values(col), |col|)
  }

  /** No tile above row 0 has an empty cell directly beneath it. */
  predicate Settled(col: seq<Cell>)
  {
    forall r | 1 <= r < |col| :: col[r].Some? ==> col[r - 1].Some?
  }

  lemma {:induction false} ValuesPackedPrefix(vs: seq<nat>, n: nat, k: nat)
    requires |vs| <= n && k <= n
    ensures Values(Packed(vs, n)[..k]) == if k <= |vs| then vs[..k] else vs
  {
    if k > 0 {
      ValuesPackedPrefix(vs, n, k - 1);
      ValuesPrefixStep(Packed(vs, n), k - 1);
      if k <= |vs| {
        assert vs[..k] == vs[..k - 1] + [vs[k - 1]];
      }
    }
  }

  /** Gravity keeps the column's height, leaves no tile floating, and keeps its tiles in their bottom-to-top order. */
  lemma {:induction false} SettleSpec(col: seq<Cell>)
    ensures |Settle(col)| == |col|
    ensures Settled(Settle(col))
    ensures Values(Settle(col)) == Values(col)
  {
    var p := Settle(col);
    ValuesPackedPrefix(Values(col), |col|, |col|);
    assert p[..|col|] == p;
  }

  /** A column with no floating tile is left exactly as it is. */
  lemma {:induction false} SettledIsFixed(col: seq<Cell>)
    requires Settled(col)
    ensures Settle(col) == col
  {
    if col != [] {
      var n := |col|;
      var init := col[..n - 1];
      assert Settled(init);
      SettledIsFixed(init);
      var vs := Values(init);
      assert Values(col) == vs + (if col[n - 1].Some? then [col[n - 1].value] else []);
      if col[n - 1].Some? && n >= 2 {
        assert init[n - 2].Some?;
        assert Packed(vs, n - 1)[n - 2].Some?;
      }
      assert forall i | 0 <= i < n - 1 :: Settle(col)[i] == Packed(vs, n - 1)[i];
    }
  }

  /** A column is settled exactly when gravity leaves it unchanged; a second gravity pass moves nothing. */
  lemma {:induction false} SettleFixpoint(col: seq<Cell>)
    ensures Settled(col) <==> Settle(col) == col
    ensures Settle(Settle(col)) == Settle(col)
  {
    SettleSpec(col);
    if Settled(col) {
      SettledIsFixed(col);
    }
    SettledIsFixed(Settle(col));
  }

  // ------------------------------------------------------------------ merges

  /** Rows `y` and `y + 1` hold tiles with equal numbers. */
  predicate PairAt(col: seq<Cell>, y: int)
  {
    0 <= y && y + 1 < |col| && col[y].Some? && col[y + 1].Some? && col[y].value == col[y + 1].value
  }

  /** No two vertically adjacent occupied cells hold equal numbers. */
  predicate NoPairs(col: seq<Cell>)
  {
    forall y | 0 <= y < |col| - 1 :: !PairAt(col, y)
  }

  /** The lowest mergeable row at or above `from`, as the bottom-to-top scan finds it. */
  function FirstPairFrom(col: seq<Cell>, from: nat): (p: Option<nat>)
    ensures p.Some? ==> from <= p.value && PairAt(col, p.value)
    ensures p.Some? ==> forall y | from <= y < p.value :: !PairAt(col, y)
    ensures p.None? ==> forall y | from <= y :: !PairAt(col, y)
    decreases |col| - from
  {
    if from + 1 >= |col| then None
    else if PairAt(col, from) then Some(from)
    else FirstPairFrom(col, from + 1)
  }

  function FirstPair(col: seq<Cell>): Option<nat>
  {
    FirstPairFrom(col, 0)
  }

  /** One merge at row `y`: the lower tile doubles, the upper one goes, and every cell above moves down one row. */
  function MergeAt(col: seq<Cell>, y: nat): seq<Cell>
    requires PairAt(col, y)
  {
    col[..y] + [Some(2 * col[y].value)] + col[y + 2..] + [None]
  }

  lemma {:induction false} ValuesSplit(col: seq<Cell>, y: nat)
    requires PairAt(col, y)
    ensures Values(col) == Values(col[..y]) + [col[y].value, col[y].value] + Values(col[y + 2..])
  {
    var below, above := col[..y], col[y + 2..];
    var pair: seq<Cell> := [col[y], col[y + 1]];
    assert col == below + pair + above;
    ValuesAppend(below + pair, above);
    ValuesAppend(below, pair);
    assert pair[..1][..0] == [];
  }

  lemma {:induction false} MergeAtValues(col: seq<Cell>, y: nat)
    requires PairAt(col, y)
    ensures Values(MergeAt(col, y)) == Values(col[..y]) + [2 * col[y].value] + Values(col[y + 2..])
  {
    var below, above := col[..y], col[y + 2..];
    var one: seq<Cell> := [Some(2 * col[y].value)];
    var none: seq<Cell> := [None];
    assert MergeAt(col, y) == below + one + above + none;
    ValuesAppend(below + one + above, none);
    ValuesAppend(below + one, above);
    ValuesAppend(below, one);
    assert one[..0] == [] && none[..0] == [];
  }

  /**
   * A merge writes old lower + old upper into the lower cell, leaves the cells
   * below alone, moves every cell above down exactly one row (gaps included),
   * empties the top cell, removes exactly one tile and keeps the column's total.
   */
  lemma {:induction false} MergeAtFacts(col: seq<Cell>, y: nat)
    requires PairAt(col, y)
    ensures |MergeAt(col, y)| == |col|
    ensures MergeAt(col, y)[y] == Some(col[y].value + col[y + 1].value)
    ensures forall r | 0 <= r < y :: MergeAt(col, y)[r] == col[r]
    ensures forall r | y < r < |col| - 1 :: MergeAt(col, y)[r] == col[r + 1]
    ensures MergeAt(col, y)[|col| - 1] == None
    ensures |Values(MergeAt(col, y))| + 1 == |Values(col)|
    ensures Sum(Values(MergeAt(col, y))) == Sum(Values(col))
  {
    var v := col[y].value;
    ValuesSplit(col, y);
    MergeAtValues(col, y);
    var vb, va := Values(col[..y]), Values(col[y + 2..]);
    SumAppend(vb + [v, v], va);
    SumAppend(vb, [v, v]);
    SumAppend(vb + [2 * v], va);
    SumAppend(vb, [2 * v]);
    var two: seq<nat> := [v, v];
    assert two[..1][..0] == [];
    var one: seq<nat> := [2 * v];
    assert one[..0] == [];
  }

  /** Cell `k` removed: every cell above it moves down one row and an empty cell enters at the top. */
  function Drop(col: seq<Cell>, k: nat): (d: seq<Cell>)
    requires k < |col|
    ensures |d| == |col|
  {
    seq(|col|, r requires 0 <= r < |col| => if r < k then col[r] else if r + 1 < |col| then col[r + 1] else None)
  }

  /** A merge is the lower cell doubled, then the upper cell dropped. */
  lemma {:induction false} MergeAtIsDrop(col: seq<Cell>, y: nat)
    requires PairAt(col, y)
    ensures MergeAt(col, y) == Drop(col[y := Some(2 * col[y].value)][y + 1 := None], y + 1)
  {
    MergeAtFacts(col, y);
  }

  /** The outcome of resolving a column: its final cells and the score the merges earned. */
  datatype Resolution = Resolution(col: seq<Cell>, gain: nat)

  /**
   * Repeated merging as the scan-and-restart loop does it: merge at the lowest
   * mergeable row, earn the new value, and start again, until no pair is left.
   */
  function Resolve(col: seq<Cell>): (r: Resolution)
    ensures |r.col| == |col|
    ensures NoPairs(r.col)
    decreases |Values(col)|
  {
    match FirstPair(col)
    case None => Resolution(col, 0)
    case Some(y) =>
      MergeAtFacts(col, y);
      var rest := Resolve(MergeAt(col, y));
      Resolution(rest.col, 2 * col[y].value + rest.gain)
  }

  /**
   * Resolving keeps the column's total, never adds tiles, earns nothing and
   * changes nothing exactly when there is no pair to merge.
   */
  lemma {:induction false} ResolveFacts(col: seq<Cell>)
    ensures Sum(Values(Resolve(col).col)) == Sum(Values(col))
    ensures |Values(Resolve(col).col)| <= |Values(col)|
    ensures NoPairs(col) <==> Resolve(col) == Resolution(col, 0)
    decreases |Values(col)|
  {
    match FirstPair(col)
    case None =>
    case Some(y) =>
      MergeAtFacts(col, y);
      ResolveFacts(MergeAt(col, y));
  }

  /** A column of 2, 2, 4 (bottom to top) ends as a single 8 and earns 4 + 8. */
  lemma ResolveTwoTwoFour()
    ensures Resolve([Some(2), Some(2), Some(4)]) == Resolution([Some(8), None, None], 12)
  {
    var c0: seq<Cell> := [Some(2), Some(2), Some(4)];
    assert PairAt(c0, 0);
    var c1 := MergeAt(c0, 0);
    assert c1 == [Some(4), Some(4), None];
    assert PairAt(c1, 0);
    var c2 := MergeAt(c1, 0);
    assert c2 == [Some(8), None, None];
    assert !PairAt(c2, 0) && !PairAt(c2, 1);
    assert FirstPair(c2) == None;
    assert Resolve(c2) == Resolution(c2, 0);
    assert Resolve(c1) == Resolution(c2, 8);
  }

  /** Gravity on a column of empty, 4, empty, 2 stacks 4 then 2 from the bottom. */
  lemma SettleExample()
    ensures Settle([None, Some(4), None, Some(2)]) == [Some(4), Some(2), None, None]
  {
    var col: seq<Cell> := [None, Some(4), None, Some(2)];
    assert col[..3][..2][..1][..0] == [];
    assert Values(col[..1]) == [];
    assert Values(col[..2]) == [4] by { ValuesPrefixStep(col, 1); }
    assert Values(col[..3]) == [4] by { ValuesPrefixStep(col, 2); }
    assert Values(col) == [4, 2] by { ValuesPrefixStep(col, 3); assert col[..4] == col; }
  }
}
