/** Value-level view of the adjacency-matrix Ford-Fulkerson program
    (main1/Main.java): the residual matrix as a square sequence of rows, walks
    through positive entries, the bookkeeping of its breadth-first search, and
    what pushing flow along a path does to the matrix. The class in
    MatrixFlow is proved against these definitions. */
module MatrixModel {
  import opened Flows
  import opened Counting

  /** graph[u][v]: the residual capacity from u to v. */
  type Matrix = seq<seq<int>>

  /** An n-by-n matrix. */
  ghost predicate Square(m: Matrix, n: int)
  {
    |m| == n && forall i :: 0 <= i < n ==> |m[i]| == n
  }

  /** A square matrix with no negative entry. */
  ghost predicate NonNegative(m: Matrix)
  {
    Square(m, |m|) && forall a, b :: 0 <= a < |m| && 0 <= b < |m| ==> m[a][b] >= 0
  }

  /** Two square matrices of one size with the same entries are equal. */
  lemma SameEntries(a: Matrix, b: Matrix)
    requires Square(a, |a|) && Square(b, |a|)
    requires forall i, j :: 0 <= i < |a| && 0 <= j < |a| ==> a[i][j] == b[i][j]
    ensures a == b
  {
    assert forall i :: 0 <= i < |a| ==> a[i] == b[i];
  }

  /** m with entry (u, v) overwritten by c. */
  function Put(m: Matrix, u: int, v: int, c: int): (r: Matrix)
    requires 0 <= u < |m| && 0 <= v < |m[u]|
    ensures |r| == |m| && forall i :: 0 <= i < |m| ==> |r[i]| == |m[i]|
    ensures r[u][v] == c
    ensures forall i, j :: 0 <= i < |m| && 0 <= j < |m[i]| && (i != u || j != v) ==> r[i][j] == m[i][j]
  {
    m[u := m[u][v := c]]
  }

  /** Every entry of vs is a vertex 0 .. n-1. */
  ghost predicate InBounds(vs: seq<int>, n: int)
  {
    forall k :: 0 <= k < |vs| ==> 0 <= vs[k] < n
  }

  /** No vertex occurs twice. */
  ghost predicate Distinct(vs: seq<int>)
  {
    forall i, j :: 0 <= i < j < |vs| ==> vs[i] != vs[j]
  }

  /** vs is a walk from s to t that only steps along positive entries. */
  ghost predicate IsWalk(m: Matrix, vs: seq<int>, s: int, t: int)
  {
    Square(m, |m|) && InBounds(vs, |m|) && |vs| >= 1 && vs[0] == s && vs[|vs| - 1] == t &&
    forall k :: 0 <= k < |vs| - 1 ==> m[vs[k]][vs[k + 1]] > 0
  }

  /** t can be reached from s through positive entries. */
  ghost predicate Connected(m: Matrix, s: int, t: int)
  {
    exists vs :: IsWalk(m, vs, s, t)
  }

  // ---------------------------------------------------------------------
  // Row sums

  function Sum(row: seq<int>): int
  {
    if row == [] then 0 else Sum(row[..|row| - 1]) + row[|row| - 1]
  }

  /** The total residual capacity out of w. */
  function RowSum(m: Matrix, w: int): int
    requires 0 <= w < |m|
  {
    Sum(m[w])
  }

  /** Changing one entry changes the sum by exactly the difference. */
  lemma {:induction false} SumUpdate(row: seq<int>, i: nat, x: int)
    requires i < |row|
    ensures Sum(row[i := x]) == Sum(row) - row[i] + x
  {
    var n := |row| - 1;
    if i == n {
      assert row[i := x][..n] == row[..n];
    } else {
      assert row[i := x][..n] == row[..n][i := x];
      SumUpdate(row[..n], i, x);
    }
  }

  lemma {:induction false} SumNonNegative(row: seq<int>)
    requires forall i :: 0 <= i < |row| ==> row[i] >= 0
    ensures Sum(row) >= 0
  {
    if row != [] {
      var n := |row| - 1;
      assert forall i :: 0 <= i < n ==> row[..n][i] == row[i];
      SumNonNegative(row[..n]);
    }
  }

  // ---------------------------------------------------------------------
  // Pushing flow

  /** The update of one path pair (u, v), graph[u][v] -= f and then
      graph[v][u] += f: entry (u, v) loses f, entry (v, u) gains it, and every
      other entry is as it was. */
  function Push(m: Matrix, u: int, v: int, f: int): (r: Matrix)
    requires Square(m, |m|) && 0 <= u < |m| && 0 <= v < |m|
    ensures Square(r, |m|)
    ensures forall a, b :: 0 <= a < |m| && 0 <= b < |m| ==>
      r[a][b] == m[a][b] - (if a == u && b == v then f else 0) + (if a == v && b == u then f else 0)
  {
    var m1 := m[u := m[u][v := m[u][v] - f]];
    m1[v := m1[v][u := m1[v][u] + f]]
  }

  /** Pushing f from u to v takes f from the row sum of u and adds it to
      that of v. */
  lemma PushRowSums(m: Matrix, u: int, v: int, f: int, w: int)
    requires Square(m, |m|) && 0 <= u < |m| && 0 <= v < |m| && 0 <= w < |m|
    ensures RowSum(Push(m, u, v, f), w) == RowSum(m, w) - (if w == u then f else 0) + (if w == v then f else 0)
  {
    var m1 := m[u := m[u][v := m[u][v] - f]];
    SumUpdate(m[u], v, m[u][v] - f);
    SumUpdate(m1[v], u, m1[v][u] + f);
  }

  /** The matrix after the pairs (vs[j], vs[j+1]) with j >= k have been
      pushed, last pair first, as the source walks the path back from the
      sink. */
  function AugmentFrom(m: Matrix, vs: seq<int>, k: nat, f: int): (r: Matrix)
    requires Square(m, |m|) && InBounds(vs, |m|) && k <= |vs|
    ensures Square(r, |m|)
    decreases |vs| - k
  {
    if k + 1 >= |vs| then m else Push(AugmentFrom(m, vs, k + 1, f), vs[k], vs[k + 1], f)
  }

  /** Pushing along any walk keeps graph[a][b] + graph[b][a] for every pair. */
  lemma {:induction false} AugmentPairSums(m: Matrix, vs: seq<int>, k: nat, f: int)
    requires Square(m, |m|) && InBounds(vs, |m|) && k <= |vs|
    ensures forall a, b :: 0 <= a < |m| && 0 <= b < |m| ==>
      AugmentFrom(m, vs, k, f)[a][b] + AugmentFrom(m, vs, k, f)[b][a] == m[a][b] + m[b][a]
    decreases |vs| - k
  {
    if k + 1 < |vs| {
      AugmentPairSums(m, vs, k + 1, f);
    }
  }

  /** Pushing along the walk vs[k..] moves f of row sum from its first vertex
      to its last; every other row sum is unchanged. */
  lemma {:induction false} AugmentRowSums(m: Matrix, vs: seq<int>, k: nat, f: int, w: int)
    requires Square(m, |m|) && InBounds(vs, |m|) && k < |vs| && 0 <= w < |m|
    ensures RowSum(AugmentFrom(m, vs, k, f), w)
         == RowSum(m, w) - (if w == vs[k] then f else 0) + (if w == vs[|vs| - 1] then f else 0)
    decreases |vs| - k
  {
    if k + 1 < |vs| {
      AugmentRowSums(m, vs, k + 1, f, w);
      PushRowSums(AugmentFrom(m, vs, k + 1, f), vs[k], vs[k + 1], f, w);
    }
  }

  /** Along a walk that repeats no vertex, by at most each of its entries, the
      pushes keep every entry non-negative, and the pairs not pushed yet still
      hold their original entries. */
  lemma {:induction false} AugmentNonNegative(m: Matrix, vs: seq<int>, k: nat, f: int)
    requires NonNegative(m) && InBounds(vs, |m|) && Distinct(vs) && k <= |vs| && 0 <= f
    requires forall j :: 0 <= j < |vs| - 1 ==> f <= m[vs[j]][vs[j + 1]]
    ensures NonNegative(AugmentFrom(m, vs, k, f))
    ensures forall j :: 0 <= j < k && j + 1 < |vs| ==> AugmentFrom(m, vs, k, f)[vs[j]][vs[j + 1]] == m[vs[j]][vs[j + 1]]
    decreases |vs| - k
  {
    if k + 1 < |vs| {
      AugmentNonNegative(m, vs, k + 1, f);
    }
  }

  // ---------------------------------------------------------------------
  // The bottleneck

  /** The running minimum over the pairs (vs[j], vs[j+1]) with j >= k, taken
      from the sink end and started at Integer.MAX_VALUE. */
  function PathFlowFrom(m: Matrix, vs: seq<int>, k: nat): int
    requires Square(m, |m|) && InBounds(vs, |m|)
    decreases |vs| - k
  {
    if k + 1 >= |vs| then IntMax else Min(PathFlowFrom(m, vs, k + 1), m[vs[k]][vs[k + 1]])
  }

  /** Along positive entries the running minimum is at least 1, at most every
      entry it ranges over, and one of them unless all exceed the sentinel. */
  lemma {:induction false} PathFlowBounds(m: Matrix, vs: seq<int>, k: nat)
    requires Square(m, |m|) && InBounds(vs, |m|)
    requires forall j :: k <= j < |vs| - 1 ==> m[vs[j]][vs[j + 1]] > 0
    ensures 1 <= PathFlowFrom(m, vs, k) <= IntMax
    ensures forall j :: k <= j < |vs| - 1 ==> PathFlowFrom(m, vs, k) <= m[vs[j]][vs[j + 1]]
    ensures PathFlowFrom(m, vs, k) == IntMax ||
      exists j :: k <= j < |vs| - 1 && PathFlowFrom(m, vs, k) == m[vs[j]][vs[j + 1]]
    decreases |vs| - k
  {
    if k + 1 < |vs| {
      PathFlowBounds(m, vs, k + 1);
    }
  }

  // ---------------------------------------------------------------------
  // One round of the main loop

  /** What the main loop keeps, from the starting matrix m0 to the current m
      after sending total from s to t: the same size, no negative entry,
      every pair sum as it was, and every row sum as it was except that s has
      given up total and t has gained it. */
  ghost predicate Balanced(m0: Matrix, m: Matrix, s: int, t: int, total: int)
  {
    Square(m0, |m0|) && NonNegative(m) && |m| == |m0| &&
    (forall a, b :: 0 <= a < |m| && 0 <= b < |m| ==> m[a][b] + m[b][a] == m0[a][b] + m0[b][a]) &&
    (forall w :: 0 <= w < |m| ==>
      RowSum(m, w) == RowSum(m0, w) - (if w == s then total else 0) + (if w == t then total else 0))
  }

  /** A round pushes the bottleneck f >= 1 of a simple walk from s to t != s:
      the matrix stays balanced with total + f sent, and the row sum of s,
      which never goes below zero, drops by f. */
  lemma BalancedRound(m0: Matrix, m: Matrix, vs: seq<int>, s: int, t: int, total: int)
    requires Balanced(m0, m, s, t, total) && IsWalk(m, vs, s, t) && Distinct(vs) && s != t
    ensures var f := PathFlowFrom(m, vs, 0);
      var m' := AugmentFrom(m, vs, 0, f);
      1 <= f && Balanced(m0, m', s, t, total + f) &&
      0 <= RowSum(m', s) == RowSum(m, s) - f
  {
    var f := PathFlowFrom(m, vs, 0);
    PathFlowBounds(m, vs, 0);
    var m' := AugmentFrom(m, vs, 0, f);
    AugmentPairSums(m, vs, 0, f);
    AugmentNonNegative(m, vs, 0, f);
    forall w | 0 <= w < |m|
      ensures RowSum(m', w) == RowSum(m0, w) - (if w == s then total + f else 0) + (if w == t then total + f else 0)
    {
      AugmentRowSums(m, vs, 0, f, w);
    }
    AugmentRowSums(m, vs, 0, f, s);
    SumNonNegative(m'[s]);
  }

  // ---------------------------------------------------------------------
  // The breadth-first search

  /** The parent links of the search from s: every visited vertex has a
      rank, and every visited vertex but s has a visited parent of lower rank
      with a positive entry from the parent to it. */
  ghost predicate Tree(m: Matrix, s: int, visited: seq<bool>, parent: seq<int>, rank: seq<int>)
  {
    var n := |m|;
    Square(m, n) && |visited| == n && |parent| == n && |rank| == n && 0 <= s < n && visited[s] &&
    (forall x :: 0 <= x < n && visited[x] ==> 0 <= rank[x]) &&
    (forall v :: 0 <= v < n && visited[v] && v != s ==>
      0 <= parent[v] < n && visited[parent[v]] && m[parent[v]][v] > 0 && rank[parent[v]] < rank[v])
  }

  /** The search bookkeeping: the first head visited vertices are done
      (taken off the queue), the queue holds the other visited vertices in
      the order they were visited, and rank numbers the visited vertices in
      that order. */
  ghost predicate Scanning(m: Matrix, s: int, visited: seq<bool>, done: seq<bool>, parent: seq<int>,
                           queue: seq<int>, rank: seq<int>, head: nat)
  {
    var n := |m|;
    Tree(m, s, visited, parent, rank) && |done| == n &&
    |queue| + head == n - CountFalse(visited) && head == n - CountFalse(done) &&
    (forall x :: 0 <= x < n && done[x] ==> visited[x]) &&
    (forall k :: 0 <= k < |queue| ==>
      0 <= queue[k] < n && visited[queue[k]] && !done[queue[k]] && rank[queue[k]] == head + k) &&
    (forall x :: 0 <= x < n && visited[x] ==> rank[x] < head + |queue|)
  }

  /** Every positive entry out of a done vertex leads to a visited one. */
  ghost predicate Closed(m: Matrix, done: seq<bool>, visited: seq<bool>)
  {
    Square(m, |m|) && |done| == |m| && |visited| == |m| &&
    forall u, v :: 0 <= u < |m| && 0 <= v < |m| && done[u] && m[u][v] > 0 ==> visited[v]
  }

  /** The search starts with only s visited and queued, and every parent -1. */
  lemma ScanStart(m: Matrix, s: int)
    requires Square(m, |m|) && 0 <= s < |m|
    ensures var n := |m|;
      Scanning(m, s, seq(n, x => false)[s := true], seq(n, x => false), seq(n, x => -1), [s], seq(n, x => 0), 0)
    ensures Closed(m, seq(|m|, x => false), seq(|m|, x => false)[s := true])
  {
    var none := seq(|m|, x => false);
    CountFalseAllFalse(none);
    CountFalseVisit(none, s);
  }

  /** Taking the first vertex off the queue marks it done. */
  lemma ScanPop(m: Matrix, s: int, visited: seq<bool>, done: seq<bool>, parent: seq<int>,
                queue: seq<int>, rank: seq<int>, head: nat)
    requires Scanning(m, s, visited, done, parent, queue, rank, head) && queue != []
    ensures 0 <= queue[0] < |m| && visited[queue[0]]
    ensures Scanning(m, s, visited, done[queue[0] := true], parent, queue[1..], rank, head + 1)
  {
    CountFalseVisit(done, queue[0]);
  }

  /** Visiting v from the visited vertex u through a positive entry records
      u as v's parent, ranks v next, and queues it at the back. */
  lemma ScanVisit(m: Matrix, s: int, visited: seq<bool>, done: seq<bool>, parent: seq<int>,
                  queue: seq<int>, rank: seq<int>, head: nat, u: int, v: int)
    requires Scanning(m, s, visited, done, parent, queue, rank, head)
    requires 0 <= u < |m| && visited[u] && 0 <= v < |m| && !visited[v] && m[u][v] > 0
    ensures Scanning(m, s, visited[v := true], done, parent[v := u], queue + [v], rank[v := head + |queue|], head)
  {
    CountFalseVisit(visited, v);
  }

  /** Marking u done keeps the search closed once every positive entry in
      row u leads to a visited vertex. */
  lemma CloseRow(m: Matrix, done: seq<bool>, visited0: seq<bool>, visited: seq<bool>, u: int)
    requires Closed(m, done, visited0) && |visited| == |m| && 0 <= u < |m|
    requires forall x :: 0 <= x < |m| && visited0[x] ==> visited[x]
    requires forall v :: 0 <= v < |m| && m[u][v] > 0 ==> visited[v]
    ensures Closed(m, done[u := true], visited)
  {
  }

  /** Once the queue is empty every visited vertex is done. */
  lemma ScanFinished(m: Matrix, s: int, visited: seq<bool>, done: seq<bool>, parent: seq<int>, rank: seq<int>, head: nat)
    requires Scanning(m, s, visited, done, parent, [], rank, head)
    ensures done == visited
  {
    CountFalseSubset(done, visited);
  }

  /** A walk that starts at a visited vertex of a closed search stays among
      visited vertices. */
  lemma {:induction false} WalkStaysVisited(m: Matrix, visited: seq<bool>, vs: seq<int>, s: int, t: int, k: nat)
    requires Closed(m, visited, visited) && IsWalk(m, vs, s, t) && visited[s] && k < |vs|
    ensures visited[vs[k]]
  {
    if k > 0 {
      WalkStaysVisited(m, visited, vs, s, t, k - 1);
    }
  }

  /** When every positive entry out of a visited vertex leads to a visited
      vertex, nothing unvisited can be reached from a visited vertex. */
  lemma ClosedBlocksReach(m: Matrix, visited: seq<bool>, s: int, t: int)
    requires Closed(m, visited, visited) && 0 <= s < |m| && visited[s] && 0 <= t < |m| && !visited[t]
    ensures !Connected(m, s, t)
  {
    forall vs | IsWalk(m, vs, s, t) ensures false {
      WalkStaysVisited(m, visited, vs, s, t, |vs| - 1);
    }
  }

  /** The vertices met following parent links back from v to s, in order
      from s: a walk through positive entries along which ranks strictly
      grow, so no vertex repeats, and each vertex's parent is the one before. */
  ghost function Chain(m: Matrix, s: int, visited: seq<bool>, parent: seq<int>, rank: seq<int>, v: int): (r: seq<int>)
    requires Tree(m, s, visited, parent, rank) && 0 <= v < |m| && visited[v]
    ensures IsWalk(m, r, s, v)
    ensures forall k :: 0 < k < |r| ==> parent[r[k]] == r[k - 1]
    ensures forall k :: 0 <= k < |r| ==> rank[r[k]] <= rank[v]
    ensures forall i, j :: 0 <= i < j < |r| ==> rank[r[i]] < rank[r[j]]
    decreases rank[v]
  {
    if v == s then [s] else Chain(m, s, visited, parent, rank, parent[v]) + [v]
  }

  /** The parent chain repeats no vertex, so it is a path the source can push
      flow along. */
  lemma ChainDistinct(m: Matrix, s: int, visited: seq<bool>, parent: seq<int>, rank: seq<int>, v: int)
    requires Tree(m, s, visited, parent, rank) && 0 <= v < |m| && visited[v]
    ensures Distinct(Chain(m, s, visited, parent, rank, v))
  {
    var r := Chain(m, s, visited, parent, rank, v);
    forall i, j | 0 <= i < j < |r| ensures r[i] != r[j] {
      assert rank[r[i]] < rank[r[j]];
    }
  }
}
