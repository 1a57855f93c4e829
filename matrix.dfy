/** The adjacency-matrix program (main1/Main.java): a residual matrix updated
    in place, a breadth-first search that records each vertex's parent, and
    the Ford-Fulkerson loop over them. The source keeps the matrix and the
    parent array in two static fields; here they are the fields of one
    object. */
module MatrixFlow {
  import opened Flows
  import opened MatrixModel
  import opened Cuts

  class ResidualMatrix {
    /** graph[u, v]: the residual capacity from u to v. */
    const graph: array2<int>
    /** The parent of each vertex in the last search, -1 for none. */
    var parent: array<int>

    /** graph = new int[vertices][vertices]: every capacity zero. */
    constructor (vertices: nat)
      ensures Valid() && graph.Length0 == vertices && fresh(graph)
      ensures Cells() == seq(vertices, i => seq(vertices, j => 0))
    {
      graph := new int[vertices, vertices]((i, j) => 0);
      parent := new int[0];
      new;
      SameEntries(Cells(), seq(vertices, i => seq(vertices, j => 0)));
    }

    /** The matrix is square. */
    ghost predicate Valid()
    {
      graph.Length0 == graph.Length1
    }

    /** The value the matrix holds now. */
    ghost function Cells(): (m: Matrix)
      reads graph
      ensures |m| == graph.Length0 && forall i :: 0 <= i < |m| ==> |m[i]| == graph.Length1
      ensures forall i, j :: 0 <= i < graph.Length0 && 0 <= j < graph.Length1 ==> m[i][j] == graph[i, j]
    {
      seq(graph.Length0, i requires 0 <= i < graph.Length0 reads graph =>
        seq(graph.Length1, j requires 0 <= j < graph.Length1 reads graph => graph[i, j]))
    }

    /** addEdge: sets the capacity from u to v, overwriting (not adding to)
        any earlier capacity for that ordered pair; nothing else changes. */
    method AddEdge(u: int, v: int, c: int)
      requires Valid() && 0 <= u < graph.Length0 && 0 <= v < graph.Length0
      modifies graph
      ensures Cells() == Put(old(Cells()), u, v, c)
    {
      ghost var before := Cells();
      graph[u, v] := c;
      SameEntries(Cells(), Put(before, u, v, c));
    }

    /** bfs: a breadth-first search from the source over positive entries
        that explores every vertex it can reach and reports whether the sink
        was among them. It leaves the matrix alone and records in a new
        parent array a tree of positive entries: following parent links
        from any visited vertex leads back to the source. */
    method Bfs(source: int, sink: int) returns (found: bool, ghost marked: seq<bool>, ghost rank: seq<int>)
      requires Valid() && 0 <= source < graph.Length0 && 0 <= sink < graph.Length0
      modifies this
      ensures fresh(parent) && unchanged(graph)
      ensures found <==> Connected(Cells(), source, sink)
      ensures Tree(Cells(), source, marked, parent[..], rank) && found == marked[sink]
      ensures Closed(Cells(), marked, marked)
    {
      var n := graph.Length0;
      ghost var M := Cells();
      parent := new int[n](_ => -1);
      var visited := new bool[n](_ => false);
      var queue: seq<int> := [source];
      visited[source] := true;
      parent[source] := -1;
      // Which vertices have been taken off the queue, how many, and for each
      // visited vertex how many were visited before it.
      ghost var done: seq<bool> := seq(n, x => false);
      ghost var head: nat := 0;
      rank := seq(n, x => 0);
      ScanStart(M, source);
      assert visited[..] == seq(n, x => false)[source := true];
      assert parent[..] == seq(n, x => -1);
      while queue != []
        invariant fresh(parent) && visited.Length == n && parent.Length == n
        invariant Scanning(M, source, visited[..], done, parent[..], queue, rank, head)
        invariant Closed(M, done, visited[..])
        decreases n - head
      {
        queue, done, rank, head := ScanNext(M, source, visited, queue, done, rank, head);
      }
      ScanFinished(M, source, visited[..], done, parent[..], rank, head);
      found := visited[sink];
      marked := visited[..];
      if found {
        ghost var vs := Chain(M, source, marked, parent[..], rank, sink);
      } else {
        ClosedBlocksReach(M, marked, source, sink);
      }
    }

    /** One round of the search loop: takes the next vertex off the queue and
        visits its unvisited neighbours. */
    method ScanNext(ghost M: Matrix, ghost s: int, visited: array<bool>, queue0: seq<int>,
                    ghost done0: seq<bool>, ghost rank0: seq<int>, ghost head0: nat)
      returns (queue: seq<int>, ghost done: seq<bool>, ghost rank: seq<int>, ghost head: nat)
      requires Valid() && M == Cells() && visited.Length == |M| && parent.Length == |M| && queue0 != []
      requires Scanning(M, s, visited[..], done0, parent[..], queue0, rank0, head0)
      requires Closed(M, done0, visited[..])
      modifies visited, parent
      ensures Scanning(M, s, visited[..], done, parent[..], queue, rank, head)
      ensures Closed(M, done, visited[..])
      ensures head == head0 + 1
    {
      ScanPop(M, s, visited[..], done0, parent[..], queue0, rank0, head0);
      var u := queue0[0];
      queue := queue0[1..];
      ghost var visited0 := visited[..];
      done, head := done0[u := true], head0 + 1;
      queue, rank := ScanRow(M, s, u, visited, done, queue, rank0, head);
      CloseRow(M, done0, visited0, visited[..], u);
    }

    /** The inner loop of the search over row u: every unvisited vertex v
        with graph[u][v] > 0, in index order, is queued, gets u as its
        parent, and is marked visited. */
    method ScanRow(ghost M: Matrix, ghost s: int, u: int, visited: array<bool>, ghost done: seq<bool>,
                   queue0: seq<int>, ghost rank0: seq<int>, ghost head: nat)
      returns (queue: seq<int>, ghost rank: seq<int>)
      requires Valid() && M == Cells() && visited.Length == |M| && parent.Length == |M|
      requires Scanning(M, s, visited[..], done, parent[..], queue0, rank0, head)
      requires 0 <= u < |M| && visited[u]
      modifies visited, parent
      ensures Scanning(M, s, visited[..], done, parent[..], queue, rank, head)
      ensures forall x :: 0 <= x < |M| && old(visited[x]) ==> visited[x]
      ensures forall v :: 0 <= v < |M| && M[u][v] > 0 ==> visited[v]
    {
      queue, rank := queue0, rank0;
      for v := 0 to graph.Length0
        invariant Scanning(M, s, visited[..], done, parent[..], queue, rank, head)
        invariant forall x :: 0 <= x < |M| && old(visited[x]) ==> visited[x]
        invariant forall w :: 0 <= w < v && M[u][w] > 0 ==> visited[w]
      {
        if !visited[v] && graph[u, v] > 0 {
          ScanVisit(M, s, visited[..], done, parent[..], queue, rank, head, u, v);
          rank := rank[v := head + |queue|];
          queue := queue + [v];
          parent[v] := u;
          visited[v] := true;
        }
      }
    }

    /** The first walk back along parent links from the sink: the smallest
        entry graph[parent[v]][v] on the path, starting from
        Integer.MAX_VALUE. */
    method PathFlow(source: int, sink: int, ghost vs: seq<int>) returns (pathFlow: int)
      requires Valid() && IsWalk(Cells(), vs, source, sink) && Distinct(vs) && parent.Length == graph.Length0
      requires forall k :: 0 < k < |vs| ==> parent[vs[k]] == vs[k - 1]
      ensures pathFlow == PathFlowFrom(Cells(), vs, 0)
    {
      pathFlow := IntMax;
      var v := sink;
      ghost var k := |vs| - 1;
      while v != source
        invariant 0 <= k < |vs| && v == vs[k]
        invariant pathFlow == PathFlowFrom(Cells(), vs, k)
        decreases k
      {
        var u := parent[v];
        assert u == vs[k - 1] && 0 <= u < graph.Length0;
        pathFlow := Min(pathFlow, graph[u, v]);
        v := u;
        k := k - 1;
      }
    }

    /** The second walk back from the sink: for each pair (u, v) of the path,
        last pair first, graph[u][v] -= pathFlow and graph[v][u] += pathFlow. */
    method AugmentPath(source: int, sink: int, ghost vs: seq<int>, pathFlow: int)
      requires Valid() && IsWalk(Cells(), vs, source, sink) && Distinct(vs) && parent.Length == graph.Length0
      requires forall k :: 0 < k < |vs| ==> parent[vs[k]] == vs[k - 1]
      modifies graph
      ensures Cells() == AugmentFrom(old(Cells()), vs, 0, pathFlow)
    {
      ghost var M := Cells();
      var v := sink;
      ghost var k := |vs| - 1;
      while v != source
        invariant 0 <= k < |vs| && v == vs[k]
        invariant Cells() == AugmentFrom(M, vs, k, pathFlow)
        decreases k
      {
        var u := parent[v];
        assert u == vs[k - 1] && 0 <= u < graph.Length0;
        ghost var before := Cells();
        graph[u, v] := graph[u, v] - pathFlow;
        graph[v, u] := graph[v, u] + pathFlow;
        SameEntries(Cells(), Push(before, u, v, pathFlow));
        v := u;
        k := k - 1;
      }
    }

    /** fordFulkerson: augments along the path the search finds for as long
        as it finds one. When it stops the sink cannot be reached through
        positive entries; the matrix has no negative entry, every pair sum
        graph[a][b] + graph[b][a] is as it was, and the returned total has
        left the row sum of the source and arrived at that of the sink, every
        other row sum being unchanged. It terminates because each round takes
        at least 1 from the row sum of the source, which never goes below 0.
        The total is a maximum flow: it equals the capacity, in the starting
        matrix, of the cut formed by the vertices the last search reached,
        and no cut separating source from sink has a smaller capacity. */
    method FordFulkerson(source: int, sink: int) returns (maxFlow: int, ghost reached: seq<bool>)
      requires Valid() && 0 <= source < graph.Length0 && 0 <= sink < graph.Length0 && source != sink
      requires NonNegative(Cells())
      modifies this, graph
      ensures Balanced(old(Cells()), Cells(), source, sink, maxFlow) && maxFlow >= 0
      ensures !Connected(Cells(), source, sink)
      ensures IsCut(reached, graph.Length0, source, sink) && maxFlow == CutCapacity(old(Cells()), reached)
      ensures forall c :: IsCut(c, graph.Length0, source, sink) ==> maxFlow <= CutCapacity(old(Cells()), c)
    {
      ghost var M0 := Cells();
      maxFlow := 0;
      while true
        invariant Balanced(M0, Cells(), source, sink, maxFlow) && maxFlow >= 0
        decreases RowSum(Cells(), source)
      {
        var found, marked, rank := Bfs(source, sink);
        if !found {
          reached := marked;
          MaxFlowMinCut(M0, Cells(), source, sink, maxFlow, reached);
          break;
        }
        maxFlow := AugmentRound(source, sink, M0, marked, rank, maxFlow);
      }
    }

    /** The body of the main loop once the search has found the sink: the
        two walks back along parent links, then maxFlow += pathFlow. */
    method AugmentRound(source: int, sink: int, ghost M0: Matrix, ghost marked: seq<bool>, ghost rank: seq<int>,
                        maxFlow0: int) returns (maxFlow: int)
      requires Valid() && 0 <= source < graph.Length0 && 0 <= sink < graph.Length0 && source != sink
      requires Balanced(M0, Cells(), source, sink, maxFlow0) && maxFlow0 >= 0
      requires Tree(Cells(), source, marked, parent[..], rank) && marked[sink]
      modifies graph
      ensures Balanced(M0, Cells(), source, sink, maxFlow) && maxFlow >= 0
      ensures 0 <= RowSum(Cells(), source) < RowSum(old(Cells()), source)
    {
      ghost var M := Cells();
      ghost var vs := Chain(M, source, marked, parent[..], rank, sink);
      ChainDistinct(M, source, marked, parent[..], rank, sink);
      BalancedRound(M0, M, vs, source, sink, maxFlow0);
      var pathFlow := PathFlow(source, sink, vs);
      AugmentPath(source, sink, vs, pathFlow);
      maxFlow := maxFlow0 + pathFlow;
    }
  }

  /** The capacities main builds with its ten addEdge calls: six vertices,
      source 0, sink 5. */
  function ExampleCapacities(): Matrix
  {
    [[0, 16, 13, 0, 0, 0],
     [0, 0, 10, 12, 0, 0],
     [0, 4, 0, 0, 14, 0],
     [0, 0, 9, 0, 0, 20],
     [0, 0, 0, 7, 0, 4],
     [0, 0, 0, 0, 0, 0]]
  }

  /** The capacity of a cut of the example network: the capacities of the
      edges that leave it. */
  lemma ExampleCutCapacity(c: seq<bool>)
    requires |c| == 6
    ensures CutCapacity(ExampleCapacities(), c) ==
      (if c[0] && !c[1] then 16 else 0) + (if c[0] && !c[2] then 13 else 0) +
      (if c[1] && !c[2] then 10 else 0) + (if c[1] && !c[3] then 12 else 0) +
      (if c[2] && !c[1] then 4 else 0) + (if c[2] && !c[4] then 14 else 0) +
      (if c[3] && !c[2] then 9 else 0) + (if c[3] && !c[5] then 20 else 0) +
      (if c[4] && !c[3] then 7 else 0) + (if c[4] && !c[5] then 4 else 0)
  {
    var m := ExampleCapacities();
    CutSix(m, c);
    var d := Not(c);
    PickSix(m[0], d);
    PickSix(m[1], d);
    PickSix(m[2], d);
    PickSix(m[3], d);
    PickSix(m[4], d);
    PickSix(m[5], d);
  }

  /** Every cut of the example network separating 0 from 5 has capacity at
      least 23, and the cut {0, 1, 2, 4} has exactly 23. */
  lemma ExampleMinCut()
    ensures forall c :: IsCut(c, 6, 0, 5) ==> CutCapacity(ExampleCapacities(), c) >= 23
    ensures IsCut([true, true, true, false, true, false], 6, 0, 5)
    ensures CutCapacity(ExampleCapacities(), [true, true, true, false, true, false]) == 23
  {
    forall c | IsCut(c, 6, 0, 5) ensures CutCapacity(ExampleCapacities(), c) >= 23 {
      ExampleCutCapacity(c);
    }
    ExampleCutCapacity([true, true, true, false, true, false]);
  }

  /** main: builds the example network and runs fordFulkerson(0, 5), which
      returns 23. */
  method Example() returns (maxFlow: int)
    ensures maxFlow == 23
  {
    var network := BuildExample();
    ExampleMinCut();
    ghost var reached;
    maxFlow, reached := network.FordFulkerson(0, 5);
  }

  /** The six-by-six matrix of zeros. */
  function ZeroSix(): Matrix
  {
    var zero := [0, 0, 0, 0, 0, 0];
    [zero, zero, zero, zero, zero, zero]
  }

  /** The ten addEdge calls of main, applied to the zero matrix in order,
      give the example capacities. */
  lemma ExampleBuilt()
    ensures Put(Put(Put(Put(Put(Put(Put(Put(Put(Put(ZeroSix(),
      0, 1, 16), 0, 2, 13), 1, 2, 10), 1, 3, 12), 2, 1, 4), 2, 4, 14), 3, 2, 9), 3, 5, 20), 4, 3, 7), 4, 5, 4)
      == ExampleCapacities()
  {
    var m := ZeroSix();
    m := Put(Put(Put(Put(m, 0, 1, 16), 0, 2, 13), 1, 2, 10), 1, 3, 12);
    assert m[0] == [0, 16, 13, 0, 0, 0] && m[1] == [0, 0, 10, 12, 0, 0];
    m := Put(Put(Put(Put(m, 2, 1, 4), 2, 4, 14), 3, 2, 9), 3, 5, 20);
    assert m[2] == [0, 4, 0, 0, 14, 0] && m[3] == [0, 0, 9, 0, 0, 20];
    m := Put(Put(m, 4, 3, 7), 4, 5, 4);
    assert m[4] == [0, 0, 0, 7, 0, 4] && m[5] == [0, 0, 0, 0, 0, 0];
  }

  /** The ten addEdge calls of main on a new 6-vertex matrix. */
  method BuildExample() returns (network: ResidualMatrix)
    ensures fresh(network) && fresh(network.graph) && network.Valid() && network.graph.Length0 == 6
    ensures network.Cells() == ExampleCapacities()
  {
    network := new ResidualMatrix(6);
    SameEntries(seq(6, i => seq(6, j => 0)), ZeroSix());
    network.AddEdge(0, 1, 16);
    network.AddEdge(0, 2, 13);
    network.AddEdge(1, 2, 10);
    network.AddEdge(1, 3, 12);
    network.AddEdge(2, 1, 4);
    network.AddEdge(2, 4, 14);
    network.AddEdge(3, 2, 9);
    network.AddEdge(3, 5, 20);
    network.AddEdge(4, 3, 7);
    network.AddEdge(4, 5, 4);
    ExampleBuilt();
  }
}
