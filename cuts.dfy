/** Cuts of the residual matrix and the max-flow min-cut argument for the
    adjacency-matrix program: what has been sent from s to t equals the
    capacity of any cut of the starting matrix minus that of the same cut of
    the current matrix. When the search can no longer reach t, the cut made
    of the vertices it reached has nothing left in the current matrix, so
    the total equals its capacity and is at most that of any other cut. */
module Cuts {
  import opened MatrixModel

  /** The vertices not in c. */
  function Not(c: seq<bool>): (r: seq<bool>)
    ensures |r| == |c| && forall i :: 0 <= i < |c| ==> r[i] == !c[i]
  {
    seq(|c|, i requires 0 <= i < |c| => !c[i])
  }

  /** c, a set of the n vertices, holds s and not t. */
  ghost predicate IsCut(c: seq<bool>, n: int, s: int, t: int)
  {
    |c| == n && 0 <= s < n && 0 <= t < n && c[s] && !c[t]
  }

  /** Sum of row[b] over b < j with cols[b]. */
  function Pick(row: seq<int>, cols: seq<bool>, j: nat): int
    requires j <= |row| && j <= |cols|
  {
    if j == 0 then 0 else Pick(row, cols, j - 1) + (if cols[j - 1] then row[j - 1] else 0)
  }

  /** Sum of m[a][b] over a < k with rows[a] and b < j with cols[b]. */
  function Block(m: Matrix, rows: seq<bool>, cols: seq<bool>, k: nat, j: nat): int
    requires Square(m, |m|) && |rows| == |m| && |cols| == |m| && k <= |m| && j <= |m|
  {
    if k == 0 then 0 else Block(m, rows, cols, k - 1, j) + (if rows[k - 1] then Pick(m[k - 1], cols, j) else 0)
  }

  /** Sum of m[a][j] over a < k with rows[a]. */
  function Column(m: Matrix, rows: seq<bool>, k: nat, j: nat): int
    requires Square(m, |m|) && |rows| == |m| && k <= |m| && j < |m|
  {
    if k == 0 then 0 else Column(m, rows, k - 1, j) + (if rows[k - 1] then m[k - 1][j] else 0)
  }

  /** Sum of the row sums of the rows a < k with rows[a]. */
  function Rows(m: Matrix, rows: seq<bool>, k: nat): int
    requires Square(m, |m|) && |rows| == |m| && k <= |m|
  {
    if k == 0 then 0 else Rows(m, rows, k - 1) + (if rows[k - 1] then RowSum(m, k - 1) else 0)
  }

  /** The capacity of the cut c: the entries from a vertex in c to a vertex
      not in c. */
  function CutCapacity(m: Matrix, c: seq<bool>): int
    requires Square(m, |m|) && |c| == |m|
  {
    Block(m, c, Not(c), |m|, |m|)
  }

  /** Every pair sum m[a][b] + m[b][a] of a equals that of b. */
  ghost predicate SamePairSums(a: Matrix, b: Matrix)
  {
    Square(a, |a|) && Square(b, |a|) &&
    forall x, y :: 0 <= x < |a| && 0 <= y < |a| ==> a[x][y] + a[y][x] == b[x][y] + b[y][x]
  }

  /** A prefix of a row is split between the columns in c and those not in c. */
  lemma {:induction false} PickSplit(row: seq<int>, c: seq<bool>, j: nat)
    requires j <= |row| && |row| == |c|
    ensures Pick(row, c, j) + Pick(row, Not(c), j) == Sum(row[..j])
  {
    if j > 0 {
      PickSplit(row, c, j - 1);
      assert row[..j][..j - 1] == row[..j - 1];
    }
  }

  /** The rows in c are split between the columns in c and those not in c. */
  lemma {:induction false} BlockSplit(m: Matrix, c: seq<bool>, k: nat)
    requires Square(m, |m|) && |c| == |m| && k <= |m|
    ensures Block(m, c, c, k, |m|) + Block(m, c, Not(c), k, |m|) == Rows(m, c, k)
  {
    if k > 0 {
      BlockSplit(m, c, k - 1);
      PickSplit(m[k - 1], c, |m|);
      assert m[k - 1][..|m|] == m[k - 1];
    }
  }

  /** Widening a block by column j adds the part of column j in its rows. */
  lemma {:induction false} BlockColumn(m: Matrix, r: seq<bool>, c: seq<bool>, k: nat, j: nat)
    requires Square(m, |m|) && |r| == |m| && |c| == |m| && k <= |m| && j < |m|
    ensures Block(m, r, c, k, j + 1) == Block(m, r, c, k, j) + (if c[j] then Column(m, r, k, j) else 0)
  {
    if k > 0 {
      BlockColumn(m, r, c, k - 1, j);
    }
  }

  /** With equal pair sums, a column part plus the mirrored row part is the
      same in both matrices. */
  lemma {:induction false} ColumnPairs(a: Matrix, b: Matrix, r: seq<bool>, k: nat, j: nat)
    requires SamePairSums(a, b) && |r| == |a| && k <= |a| && j < |a|
    ensures Column(a, r, k, j) + Pick(a[j], r, k) == Column(b, r, k, j) + Pick(b[j], r, k)
  {
    if k > 0 {
      ColumnPairs(a, b, r, k - 1, j);
      assert a[k - 1][j] + a[j][k - 1] == b[k - 1][j] + b[j][k - 1];
    }
  }

  /** With equal pair sums, the entries within any set of vertices add up to
      the same total in both matrices: inside a set, what one entry of a pair
      gains the other loses. */
  lemma {:induction false} InnerBlock(a: Matrix, b: Matrix, c: seq<bool>, k: nat)
    requires SamePairSums(a, b) && |c| == |a| && k <= |a|
    ensures Block(a, c, c, k, k) == Block(b, c, c, k, k)
  {
    if k > 0 {
      var i := k - 1;
      InnerBlock(a, b, c, i);
      BlockColumn(a, c, c, i, i);
      BlockColumn(b, c, c, i, i);
      ColumnPairs(a, b, c, i, i);
      assert a[i][i] + a[i][i] == b[i][i] + b[i][i];
    }
  }

  /** Summed over any set of rows, the row sums of a balanced matrix have
      lost total if the set holds s and gained it if it holds t. */
  lemma {:induction false} RowsBalance(m0: Matrix, m: Matrix, s: int, t: int, total: int, c: seq<bool>, k: nat)
    requires Balanced(m0, m, s, t, total) && |c| == |m| && k <= |m|
    ensures Rows(m, c, k) == Rows(m0, c, k) - (if 0 <= s < k && c[s] then total else 0)
                                             + (if 0 <= t < k && c[t] then total else 0)
  {
    if k > 0 {
      RowsBalance(m0, m, s, t, total, c, k - 1);
    }
  }

  lemma {:induction false} PickNonNegative(row: seq<int>, cols: seq<bool>, j: nat)
    requires j <= |row| && j <= |cols| && forall b :: 0 <= b < |row| ==> row[b] >= 0
    ensures Pick(row, cols, j) >= 0
  {
    if j > 0 {
      PickNonNegative(row, cols, j - 1);
    }
  }

  lemma {:induction false} BlockNonNegative(m: Matrix, r: seq<bool>, c: seq<bool>, k: nat)
    requires NonNegative(m) && |r| == |m| && |c| == |m| && k <= |m|
    ensures Block(m, r, c, k, |m|) >= 0
  {
    if k > 0 {
      BlockNonNegative(m, r, c, k - 1);
      PickNonNegative(m[k - 1], c, |m|);
    }
  }

  lemma {:induction false} PickZero(row: seq<int>, cols: seq<bool>, j: nat)
    requires j <= |row| && j <= |cols| && forall b :: 0 <= b < j && cols[b] ==> row[b] == 0
    ensures Pick(row, cols, j) == 0
  {
    if j > 0 {
      PickZero(row, cols, j - 1);
    }
  }

  /** A closed set of a matrix with no negative entry has nothing leaving it. */
  lemma {:induction false} ClosedBlockZero(m: Matrix, v: seq<bool>, k: nat)
    requires NonNegative(m) && Closed(m, v, v) && k <= |m|
    ensures Block(m, v, Not(v), k, |m|) == 0
  {
    if k > 0 {
      ClosedBlockZero(m, v, k - 1);
      if v[k - 1] {
        PickZero(m[k - 1], Not(v), |m|);
      }
    }
  }

  /** What has been sent from s to t crosses every cut: it is the capacity of
      the cut in the starting matrix minus what is left across it now. */
  lemma FlowAcrossCut(m0: Matrix, m: Matrix, s: int, t: int, total: int, c: seq<bool>)
    requires Balanced(m0, m, s, t, total) && IsCut(c, |m|, s, t)
    ensures total == CutCapacity(m0, c) - CutCapacity(m, c)
  {
    var n := |m|;
    BlockSplit(m, c, n);
    BlockSplit(m0, c, n);
    InnerBlock(m, m0, c, n);
    RowsBalance(m0, m, s, t, total, c, n);
  }

  /** The total sent is at most the capacity of any cut separating s from t. */
  lemma CutBound(m0: Matrix, m: Matrix, s: int, t: int, total: int, c: seq<bool>)
    requires Balanced(m0, m, s, t, total) && IsCut(c, |m|, s, t)
    ensures total <= CutCapacity(m0, c)
  {
    FlowAcrossCut(m0, m, s, t, total, c);
    BlockNonNegative(m, c, Not(c), |m|);
  }

  /** Once the vertices reachable from s form a closed set without t, the
      total sent equals that cut's capacity, which is therefore the smallest
      of all: the total is a maximum flow. */
  lemma MaxFlowMinCut(m0: Matrix, m: Matrix, s: int, t: int, total: int, reached: seq<bool>)
    requires Balanced(m0, m, s, t, total) && Closed(m, reached, reached) && IsCut(reached, |m|, s, t)
    ensures total == CutCapacity(m0, reached)
    ensures forall c :: IsCut(c, |m|, s, t) ==> total <= CutCapacity(m0, c)
  {
    FlowAcrossCut(m0, m, s, t, total, reached);
    ClosedBlockZero(m, reached, |m|);
    forall c | IsCut(c, |m|, s, t) ensures total <= CutCapacity(m0, c) {
      CutBound(m0, m, s, t, total, c);
    }
  }

  /** Over six columns, Pick is the sum of the selected entries. */
  lemma PickSix(row: seq<int>, cols: seq<bool>)
    requires |row| == 6 && |cols| == 6
    ensures Pick(row, cols, 6) ==
      (if cols[0] then row[0] else 0) + (if cols[1] then row[1] else 0) + (if cols[2] then row[2] else 0) +
      (if cols[3] then row[3] else 0) + (if cols[4] then row[4] else 0) + (if cols[5] then row[5] else 0)
  {
    assert Pick(row, cols, 1) == (if cols[0] then row[0] else 0);
    assert Pick(row, cols, 2) == Pick(row, cols, 1) + (if cols[1] then row[1] else 0);
    assert Pick(row, cols, 3) == Pick(row, cols, 2) + (if cols[2] then row[2] else 0);
    assert Pick(row, cols, 4) == Pick(row, cols, 3) + (if cols[3] then row[3] else 0);
    assert Pick(row, cols, 5) == Pick(row, cols, 4) + (if cols[4] then row[4] else 0);
  }

  /** Over six rows and columns, the capacity of a cut is the sum of the
      entries that leave it. */
  lemma CutSix(m: Matrix, c: seq<bool>)
    requires Square(m, 6) && |c| == 6
    ensures CutCapacity(m, c) ==
      (if c[0] then Pick(m[0], Not(c), 6) else 0) + (if c[1] then Pick(m[1], Not(c), 6) else 0) +
      (if c[2] then Pick(m[2], Not(c), 6) else 0) + (if c[3] then Pick(m[3], Not(c), 6) else 0) +
      (if c[4] then Pick(m[4], Not(c), 6) else 0) + (if c[5] then Pick(m[5], Not(c), 6) else 0)
  {
    var d := Not(c);
    assert Block(m, c, d, 1, 6) == (if c[0] then Pick(m[0], d, 6) else 0);
    assert Block(m, c, d, 2, 6) == Block(m, c, d, 1, 6) + (if c[1] then Pick(m[1], d, 6) else 0);
    assert Block(m, c, d, 3, 6) == Block(m, c, d, 2, 6) + (if c[2] then Pick(m[2], d, 6) else 0);
    assert Block(m, c, d, 4, 6) == Block(m, c, d, 3, 6) + (if c[3] then Pick(m[3], d, 6) else 0);
    assert Block(m, c, d, 5, 6) == Block(m, c, d, 4, 6) + (if c[4] then Pick(m[4], d, 6) else 0);
  }
}
