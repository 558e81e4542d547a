/** Rectangular integer grids with `-1` as the "unclaimed" sentinel, and the
    count of owned cells that `playMove` uses to detect the end of a game. */
module Grid {

  /** The sentinel stored in a line or box nobody owns yet. */
  const Unclaimed: int := -1

  /** `g` has `rows` rows of `cols` cells each. */
  predicate IsGrid(g: seq<seq<int>>, rows: int, cols: int) {
    |g| == rows && forall i :: 0 <= i < |g| ==> |g[i]| == cols
  }

  predicate AllUnclaimed(g: seq<seq<int>>) {
    forall i, j :: 0 <= i < |g| && 0 <= j < |g[i]| ==> g[i][j] == Unclaimed
  }

  predicate AllOwned(g: seq<seq<int>>) {
    forall i, j :: 0 <= i < |g| && 0 <= j < |g[i]| ==> g[i][j] != Unclaimed
  }

  /** A `rows` x `cols` grid of unclaimed cells. */
  function NewGrid(rows: nat, cols: nat): (g: seq<seq<int>>)
    ensures IsGrid(g, rows, cols)
    ensures AllUnclaimed(g)
  {
    seq(rows, _ => seq(cols, _ => Unclaimed))
  }

  /** `g` with the one cell at row `i`, column `j` replaced by `v`. */
  function Set(g: seq<seq<int>>, i: int, j: int, v: int): (r: seq<seq<int>>)
    requires 0 <= i < |g| && 0 <= j < |g[i]|
    ensures |r| == |g|
    ensures forall k :: 0 <= k < |r| ==> |r[k]| == |g[k]|
    ensures forall k, l :: 0 <= k < |r| && 0 <= l < |r[k]| ==>
              r[k][l] == (if k == i && l == j then v else g[k][l])
  {
    g[i := g[i][j := v]]
  }

  /** 1 for an owned cell, 0 for an unclaimed one. */
  function Owned(v: int): nat {
    if v != Unclaimed then 1 else 0
  }

  /** The number of owned cells in one row (gameUtils.js line 98 counts the
      cells that differ from `-1`). */
  function RowOwned(row: seq<int>): nat {
    if row == [] then 0 else Owned(row[0]) + RowOwned(row[1..])
  }

  /** The number of owned cells in a grid (the `reduce` over the rows). */
  function OwnedCount(g: seq<seq<int>>): nat {
    if g == [] then 0 else RowOwned(g[0]) + OwnedCount(g[1..])
  }

  /** Replacing one cell changes a row's count by exactly that cell's change. */
  lemma {:induction false} RowOwnedUpdate(row: seq<int>, j: int, v: int)
    requires 0 <= j < |row|
    ensures RowOwned(row[j := v]) + Owned(row[j]) == RowOwned(row) + Owned(v)
    decreases |row|
  {
    if j > 0 {
      assert row[j := v][1..] == row[1..][j - 1 := v];
      RowOwnedUpdate(row[1..], j - 1, v);
    } else {
      assert row[j := v][1..] == row[1..];
    }
  }

  /** Replacing one cell changes a grid's count by exactly that cell's change. */
  lemma {:induction false} OwnedCountUpdate(g: seq<seq<int>>, i: int, j: int, v: int)
    requires 0 <= i < |g| && 0 <= j < |g[i]|
    ensures OwnedCount(Set(g, i, j, v)) + Owned(g[i][j]) == OwnedCount(g) + Owned(v)
    decreases |g|
  {
    var r := Set(g, i, j, v);
    if i > 0 {
      assert r[1..] == Set(g[1..], i - 1, j, v);
      OwnedCountUpdate(g[1..], i - 1, j, v);
    } else {
      assert r[1..] == g[1..];
      RowOwnedUpdate(g[0], j, v);
    }
  }

  /** A row's count reaches its length exactly when every cell is owned. */
  lemma {:induction false} RowOwnedFull(row: seq<int>)
    ensures RowOwned(row) <= |row|
    ensures RowOwned(row) == |row| <==> forall j :: 0 <= j < |row| ==> row[j] != Unclaimed
  {
    if row != [] {
      RowOwnedFull(row[1..]);
      if RowOwned(row) == |row| {
        forall j | 0 <= j < |row|
          ensures row[j] != Unclaimed
        {
          if j > 0 {
            assert row[j] == row[1..][j - 1];
          }
        }
      } else {
        assert row[0] == Unclaimed || RowOwned(row[1..]) < |row[1..]|;
      }
    }
  }

  /** A grid's count is at most its number of cells, and reaches it exactly
      when every cell is owned. */
  lemma {:induction false} OwnedCountFull(g: seq<seq<int>>, rows: nat, cols: nat)
    requires IsGrid(g, rows, cols)
    ensures OwnedCount(g) <= rows * cols
    ensures OwnedCount(g) == rows * cols <==> AllOwned(g)
    decreases rows
  {
    if rows > 0 {
      OwnedCountFull(g[1..], rows - 1, cols);
      RowOwnedFull(g[0]);
      assert rows * cols == cols + (rows - 1) * cols;
      if OwnedCount(g) == rows * cols {
        forall i, j | 0 <= i < |g| && 0 <= j < |g[i]|
          ensures g[i][j] != Unclaimed
        {
          if i > 0 {
            assert g[i] == g[1..][i - 1];
          }
        }
      }
    }
  }
}
