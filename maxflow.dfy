/** The Edmonds-Karp driver (src/networkflow/MaxFlowFinder.java): breadth-first
    search for an augmenting path in a freshly built residual network, the
    bottleneck of that path, and the flow update on the base network. */
module MaxFlow {
  import opened Flows
  import opened Paths
  import opened Augmenting
  import opened Edges
  import opened Networks
  import opened Counting

  /** What is recorded about one augmenting path: its residual edges, the
      total flow after it, and its bottleneck. */
  datatype PathInfo = PathInfo(path: seq<Edge>, flow: int, bottleneck: int)

  /** The records carry running totals ending at total: the last record's
      flow is total, its bottleneck is positive, and the records before it
      end at total less that bottleneck; no records mean a total of zero. */
  predicate RunningTotals(ps: seq<PathInfo>, total: int)
  {
    if ps == [] then total == 0
    else
      var last := ps[|ps| - 1];
      last.bottleneck >= 1 && last.flow == total && RunningTotals(ps[..|ps| - 1], total - last.bottleneck)
  }

  /** The running minimum of residual capacities along p, started at IntMax. */
  function Bottleneck(p: seq<EdgeState>): int
  {
    if p == [] then IntMax else Min(Bottleneck(p[..|p| - 1]), ResidualCapacity(p[|p| - 1]))
  }

  /** The bottleneck is no larger than any residual capacity on the path and
      is one of them, unless the path is empty or every capacity exceeds IntMax. */
  lemma {:induction false} BottleneckIsMinimum(p: seq<EdgeState>)
    ensures Bottleneck(p) <= IntMax
    ensures forall k :: 0 <= k < |p| ==> Bottleneck(p) <= ResidualCapacity(p[k])
    ensures Bottleneck(p) == IntMax ||
      exists k :: 0 <= k < |p| && Bottleneck(p) == ResidualCapacity(p[k])
  {
    if p != [] {
      var n := |p| - 1;
      BottleneckIsMinimum(p[..n]);
      if Bottleneck(p[..n]) != IntMax && Bottleneck(p) == Bottleneck(p[..n]) {
        var k :| 0 <= k < n && Bottleneck(p[..n]) == ResidualCapacity(p[..n][k]);
        assert p[..n][k] == p[k];
      }
      forall k | 0 <= k < n ensures Bottleneck(p) <= ResidualCapacity(p[k]) {
        assert p[..n][k] == p[k];
      }
    }
  }

  /** One round of the main loop on values: along a simple augmenting path
      from s to t != s, the bottleneck is positive, and augmenting by it keeps
      flows feasible, moves b units of net outflow from t to s, leaves every
      other vertex balanced, and changes no endpoint or capacity. */
  lemma AugmentStep(es: seq<EdgeState>, p: seq<EdgeState>, s: int, t: int, b: int)
    requires Feasible(es) && UniquePairs(es) && s != t
    requires IsPath(Residual(es), p, s, t) && Simple(p, s)
    requires b == Bottleneck(p)
    ensures b >= 1
    ensures SameShape(es, Augment(es, p, b))
    ensures Feasible(Augment(es, p, b)) && UniquePairs(Augment(es, p, b))
    ensures forall w :: (NetOut(Augment(es, p, b), w)
      == NetOut(es, w) + (if w == s then b else 0) - (if w == t then b else 0))
    ensures OutCapacity(Augment(es, p, b), s) == OutCapacity(es, s)
  {
    BottleneckIsMinimum(p);
    assert ResidualCapacity(p[0]) > 0;
    AugmentFeasible(es, p, s, t, b);
    UniquePairsIgnoresFlow(es, Augment(es, p, b));
    forall w ensures NetOut(Augment(es, p, b), w)
      == NetOut(es, w) + (if w == s then b else 0) - (if w == t then b else 0)
    {
      AugmentNetOut(es, p, s, t, b, w);
    }
    OutCapacityIgnoresFlow(es, Augment(es, p, b), s);
  }

  /** What the main loop keeps about the flows S, starting from S0, after
      augmenting by total: endpoints and capacities are those of S0, flows
      are within capacities, the source has gained and the sink has lost
      total units of net outflow, and every other vertex is as it was. */
  ghost predicate Progress(S0: seq<EdgeState>, S: seq<EdgeState>, n: int, s: int, t: int, total: int)
  {
    SameShape(S0, S) && Feasible(S) && UniquePairs(S) && InRange(S, n) &&
    NetOut(S, s) <= OutCapacity(S, s) &&
    forall w :: NetOut(S, w) == NetOut(S0, w) + (if w == s then total else 0) - (if w == t then total else 0)
  }

  /** The loop starts with nothing augmented. */
  lemma ProgressStart(S0: seq<EdgeState>, n: int, s: int, t: int)
    requires Feasible(S0) && UniquePairs(S0) && InRange(S0, n)
    ensures Progress(S0, S0, n, s, t, 0)
  {
    NetOutBound(S0, s);
  }

  /** One round of the main loop keeps the progress and strictly decreases the
      capacity out of the source not yet used, which is never negative. */
  lemma ProgressRound(S0: seq<EdgeState>, S: seq<EdgeState>, n: int, s: int, t: int, total: int,
                      p: seq<EdgeState>, b: int)
    requires Progress(S0, S, n, s, t, total) && s != t
    requires IsPath(Residual(S), p, s, t) && Simple(p, s) && b == Bottleneck(p)
    ensures b >= 1
    ensures Progress(S0, Augment(S, p, b), n, s, t, total + b)
    ensures 0 <= OutCapacity(Augment(S, p, b), s) - NetOut(Augment(S, p, b), s)
              < OutCapacity(S, s) - NetOut(S, s)
  {
    var S' := Augment(S, p, b);
    AugmentStep(S, p, s, t, b);
    NetOutBound(S', s);
    forall i | 0 <= i < |S'| ensures 0 <= S'[i].from < n && 0 <= S'[i].to < n {
      assert S[i].from == S'[i].from && S[i].to == S'[i].to;
    }
    assert SameShape(S0, S') by {
      forall i | 0 <= i < |S'|
        ensures S0[i].from == S'[i].from && S0[i].to == S'[i].to && S0[i].capacity == S'[i].capacity
      {
        assert S0[i].from == S[i].from && S0[i].to == S[i].to && S0[i].capacity == S[i].capacity;
      }
    }
  }

  /** Recording one more path keeps the running totals. */
  lemma RunningTotalsAppend(ps: seq<PathInfo>, total: int, path: seq<Edge>, b: int)
    requires RunningTotals(ps, total) && b >= 1
    ensures RunningTotals(ps + [PathInfo(path, total + b, b)], total + b)
  {
    assert (ps + [PathInfo(path, total + b, b)])[..|ps|] == ps;
  }

  /** The flows reached from S0 by augmenting along each path of trace in
      turn, each by its own bottleneck. */
  ghost function Replay(S0: seq<EdgeState>, trace: seq<seq<EdgeState>>): seq<EdgeState>
  {
    if trace == [] then S0
    else
      var k := |trace| - 1;
      Augment(Replay(S0, trace[..k]), trace[k], Bottleneck(trace[k]))
  }

  /** The sum of the bottlenecks of the paths of trace. */
  function Pushed(trace: seq<seq<EdgeState>>): int
  {
    if trace == [] then 0 else Pushed(trace[..|trace| - 1]) + Bottleneck(trace[|trace| - 1])
  }

  /** Every path of trace was a simple augmenting path from s to t in the
      residual network of the flows reached by the paths before it. */
  ghost predicate History(S0: seq<EdgeState>, trace: seq<seq<EdgeState>>, s: int, t: int)
  {
    forall k :: 0 <= k < |trace| ==>
      IsPath(Residual(Replay(S0, trace[..k])), trace[k], s, t) && Simple(trace[k], s)
  }

  /** The records describe trace: one record per path, in order, holding
      that path's bottleneck and the sum of the bottlenecks up to and
      including it. */
  predicate Describes(ps: seq<PathInfo>, trace: seq<seq<EdgeState>>)
  {
    |ps| == |trace| &&
    forall k :: 0 <= k < |ps| ==>
      Arcs(ps[k].path) == trace[k] && ps[k].bottleneck == Bottleneck(trace[k]) && ps[k].flow == Pushed(trace[..k + 1])
  }

  /** A round that augments along a simple augmenting path of the flows
      reached so far extends the history by that path: the flows reached are
      augmented by its bottleneck, and the total grows by it. */
  lemma HistoryRound(S0: seq<EdgeState>, trace: seq<seq<EdgeState>>, p: seq<EdgeState>, s: int, t: int)
    requires History(S0, trace, s, t)
    requires IsPath(Residual(Replay(S0, trace)), p, s, t) && Simple(p, s)
    ensures History(S0, trace + [p], s, t)
    ensures Replay(S0, trace + [p]) == Augment(Replay(S0, trace), p, Bottleneck(p))
    ensures Pushed(trace + [p]) == Pushed(trace) + Bottleneck(p)
  {
    var trace' := trace + [p];
    assert trace'[..|trace|] == trace;
    forall k | 0 <= k < |trace'|
      ensures IsPath(Residual(Replay(S0, trace'[..k])), trace'[k], s, t) && Simple(trace'[k], s)
    {
      if k < |trace| {
        assert trace'[..k] == trace[..k] && trace'[k] == trace[k];
      }
    }
  }

  /** Recording the path of a new round, whose edges taken with flow 0 are
      the path's states, keeps the records describing the history. */
  lemma DescribesAppend(ps: seq<PathInfo>, trace: seq<seq<EdgeState>>, path: seq<Edge>, p: seq<EdgeState>)
    requires Describes(ps, trace) && Arcs(path) == p
    ensures Describes(ps + [PathInfo(path, Pushed(trace) + Bottleneck(p), Bottleneck(p))], trace + [p])
  {
    var trace' := trace + [p];
    assert trace'[..|trace|] == trace;
    forall k | 0 <= k < |ps|
      ensures trace'[..k + 1] == trace[..k + 1] && trace'[k] == trace[k]
    {
    }
    assert trace'[..|trace| + 1] == trace';
  }

  /** The bookkeeping of one round on values: the path p found in the
      residual network of the flows reached so far joins the history, the
      flows become those of augmenting along it by its bottleneck, the total
      grows by it, and the record appended for it keeps the records
      describing the history. */
  lemma RecordRound(S0: seq<EdgeState>, trace: seq<seq<EdgeState>>, p: seq<EdgeState>, s: int, t: int,
                    paths: seq<PathInfo>, path: seq<Edge>, total: int)
    requires History(S0, trace, s, t)
    requires IsPath(Residual(Replay(S0, trace)), p, s, t) && Simple(p, s)
    requires Describes(paths, trace) && Arcs(path) == p && total == Pushed(trace) + Bottleneck(p)
    ensures History(S0, trace + [p], s, t) && total == Pushed(trace + [p])
    ensures Replay(S0, trace + [p]) == Augment(Replay(S0, trace), p, Bottleneck(p))
    ensures Describes(paths + [PathInfo(path, total, Bottleneck(p))], trace + [p])
  {
    HistoryRound(S0, trace, p, s, t);
    DescribesAppend(paths, trace, path, p);
  }

  /** The edges of a path through a residual network have flow 0, so their
      states are the edges taken with flow 0. */
  lemma ResidualPathArcs(path: seq<Edge>, es: seq<EdgeState>)
    requires forall k :: 0 <= k < |path| ==> path[k].State() in Residual(es)
    ensures Arcs(path) == States(path)
  {
    forall k | 0 <= k < |path| ensures Arcs(path)[k] == States(path)[k] {
      assert path[k].State() in Residual(es);
    }
  }

  /** The edges of a walk through the residual network join vertices of the
      network. */
  lemma RecordedPathInRange(es: seq<EdgeState>, p: seq<EdgeState>, n: int)
    requires InRange(es, n) && forall k :: 0 <= k < |p| ==> p[k] in Residual(es)
    ensures forall k :: 0 <= k < |p| ==> 0 <= p[k].from < n && 0 <= p[k].to < n
  {
    ResidualInRange(es, n);
  }

  /** The adjacency list of f, searched in order for an edge to t, first
      finds the first edge of the whole edge list that goes from f to t. */
  lemma FirstOutgoing(es: seq<Edge>, f: int, t: int, m: nat)
    requires m < |Outgoing(es, f)| && es[Outgoing(es, f)[m]].to == t
    requires forall m' :: 0 <= m' < m ==> es[Outgoing(es, f)[m']].to != t
    ensures FindArc(States(es), f, t) == Some(Outgoing(es, f)[m])
  {
    var idx := Outgoing(es, f);
    var r := FindArc(States(es), f, t);
    assert States(es)[idx[m]].from == f && States(es)[idx[m]].to == t;
  }

  /** If no edge on the adjacency list of f goes to t, no edge does. */
  lemma NoOutgoing(es: seq<Edge>, f: int, t: int)
    requires forall m :: 0 <= m < |Outgoing(es, f)| ==> es[Outgoing(es, f)[m]].to != t
    ensures FindArc(States(es), f, t).None?
  {
    var idx := Outgoing(es, f);
    forall i | 0 <= i < |es| && es[i].from == f ensures es[i].to != t {
      assert i in idx;
    }
  }

  /** If no edge with residual capacity leads from a visited vertex to an
      unvisited one, no unvisited vertex is reachable from a visited one. */
  lemma ClosedEdgesBlockReach(es: seq<Edge>, visited: seq<bool>, s: int, t: int)
    requires Closed(es, |visited|, visited, visited)
    requires 0 <= s < |visited| && visited[s] && 0 <= t < |visited| && !visited[t]
    ensures !Reachable(States(es), s, t)
  {
    var c := set x | 0 <= x < |visited| && visited[x];
    forall e | e in States(es) && ResidualCapacity(e) > 0 && e.from in c ensures e.to in c {
      var i :| 0 <= i < |es| && States(es)[i] == e;
    }
    ClosedSetBlocksReach(States(es), c, s, t);
  }

  /** A walk of edge objects along which a rank strictly grows is a simple
      path through their values. */
  lemma RankedPathIsSimple(es: seq<Edge>, p: seq<Edge>, s: int, t: int, rank: seq<int>)
    requires forall k :: 0 <= k < |p| ==>
      p[k] in es && p[k].capacity - p[k].flow > 0 &&
      0 <= p[k].from < |rank| && 0 <= p[k].to < |rank| && rank[p[k].from] < rank[p[k].to]
    requires forall k :: 0 <= k < |p| - 1 ==> p[k].to == p[k + 1].from
    requires if p == [] then s == t else p[0].from == s && p[|p| - 1].to == t
    ensures IsPath(States(es), States(p), s, t) && Simple(States(p), s)
  {
    var ps := States(p);
    forall k | 0 <= k < |p| ensures ps[k] in States(es) {
      var i :| 0 <= i < |es| && es[i] == p[k];
      assert States(es)[i] == ps[k];
    }
    var m := map x | 0 <= x < |rank| :: rank[x];
    RankedWalkIsSimple(ps, s, m);
  }

  /** The bookkeeping of the breadth-first search from s over the edges E of
      a network with n vertices. The first head visited vertices are done:
      taken off the queue, which holds the other visited vertices in the order
      they were visited. rank numbers the visited vertices in that order; every
      visited vertex but s has a recorded edge into it with residual capacity,
      from a vertex visited earlier. */
  ghost predicate Searching(E: seq<Edge>, n: nat, s: int, visited: seq<bool>, done: seq<bool>,
                            edgeTo: map<int, Edge>, queue: seq<int>, rank: seq<int>, head: nat)
    reads E
  {
    Recorded(E, n, s, visited, edgeTo, rank) && |done| == n && 0 <= s < n && visited[s] &&
    |queue| + head == n - CountFalse(visited) && head == n - CountFalse(done) &&
    (forall x :: 0 <= x < n && done[x] ==> visited[x]) &&
    (forall k :: 0 <= k < |queue| ==>
      0 <= queue[k] < n && visited[queue[k]] && !done[queue[k]] && rank[queue[k]] == head + k) &&
    (forall x :: 0 <= x < n && visited[x] ==> rank[x] < head + |queue|)
  }

  /** Every visited vertex has a rank, and every visited vertex but s has a
      recorded edge into it with residual capacity, from a vertex of lower rank. */
  ghost predicate Recorded(E: seq<Edge>, n: nat, s: int, visited: seq<bool>, edgeTo: map<int, Edge>, rank: seq<int>)
    reads E
  {
    |visited| == n && |rank| == n &&
    (forall x :: 0 <= x < n && visited[x] ==> 0 <= rank[x]) &&
    (forall v :: 0 <= v < n && visited[v] && v != s ==> v in edgeTo) &&
    (forall v {:trigger edgeTo[v]} :: v in edgeTo ==>
      0 <= v < n && visited[v] && edgeTo[v] in E && edgeTo[v].to == v &&
      edgeTo[v].capacity - edgeTo[v].flow > 0 &&
      0 <= edgeTo[v].from < n && visited[edgeTo[v].from] && rank[edgeTo[v].from] < rank[v])
  }

  /** The search starts with only s visited and queued. */
  lemma SearchStart(E: seq<Edge>, n: nat, s: int)
    requires 0 <= s < n
    ensures Searching(E, n, s, seq(n, x => false)[s := true], seq(n, x => false), map[], [s], seq(n, x => 0), 0)
  {
    var none := seq(n, x => false);
    CountFalseAllFalse(none);
    CountFalseVisit(none, s);
  }

  /** Taking the first vertex off the queue marks it done. */
  lemma SearchPop(E: seq<Edge>, n: nat, s: int, visited: seq<bool>, done: seq<bool>, edgeTo: map<int, Edge>,
                  queue: seq<int>, rank: seq<int>, head: nat)
    requires Searching(E, n, s, visited, done, edgeTo, queue, rank, head) && queue != []
    ensures 0 <= queue[0] < n && visited[queue[0]]
    ensures Searching(E, n, s, visited, done[queue[0] := true], edgeTo, queue[1..], rank, head + 1)
  {
    CountFalseVisit(done, queue[0]);
  }

  /** Visiting w through an edge with residual capacity from a visited vertex
      keeps the bookkeeping: w is recorded, ranked next, and queued at the back. */
  lemma SearchVisit(E: seq<Edge>, n: nat, s: int, visited: seq<bool>, done: seq<bool>, edgeTo: map<int, Edge>,
                    queue: seq<int>, rank: seq<int>, head: nat, edge: Edge)
    requires Searching(E, n, s, visited, done, edgeTo, queue, rank, head)
    requires edge in E && 0 <= edge.to < n && !visited[edge.to] && edge.capacity - edge.flow > 0
    requires 0 <= edge.from < n && visited[edge.from]
    ensures Searching(E, n, s, visited[edge.to := true], done, edgeTo[edge.to := edge], queue + [edge.to],
                      rank[edge.to := head + |queue|], head)
  {
    CountFalseVisit(visited, edge.to);
  }

  /** Every edge with residual capacity out of a done vertex leads to a
      visited one. */
  ghost predicate Closed(E: seq<Edge>, n: nat, done: seq<bool>, visited: seq<bool>)
    reads E
  {
    |done| == n && |visited| == n &&
    forall i :: (0 <= i < |E| && 0 <= E[i].from < n && done[E[i].from] &&
      E[i].capacity - E[i].flow > 0) ==> 0 <= E[i].to < n && visited[E[i].to]
  }

  /** Marking v done keeps the search closed once every edge with residual
      capacity in v's adjacency list leads to a visited vertex. */
  lemma CloseVertex(E: seq<Edge>, n: nat, done: seq<bool>, visited0: seq<bool>, visited: seq<bool>,
                    v: int, adjacent: seq<Edge>)
    requires Closed(E, n, done, visited0) && |visited| == n && 0 <= v < n
    requires forall x :: 0 <= x < n && visited0[x] ==> visited[x]
    requires forall i :: 0 <= i < |E| && E[i].from == v ==> E[i] in adjacent
    requires forall m :: 0 <= m < |adjacent| && adjacent[m].capacity - adjacent[m].flow > 0 ==>
      0 <= adjacent[m].to < n && visited[adjacent[m].to]
    ensures Closed(E, n, done[v := true], visited)
  {
    forall i | 0 <= i < |E| && 0 <= E[i].from < n && done[v := true][E[i].from] && E[i].capacity - E[i].flow > 0
      ensures 0 <= E[i].to < n && visited[E[i].to]
    {
      if E[i].from == v {
        var m :| 0 <= m < |adjacent| && adjacent[m] == E[i];
      }
    }
  }

  /** Once the queue is empty every visited vertex is done. */
  lemma SearchFinished(E: seq<Edge>, n: nat, s: int, visited: seq<bool>, done: seq<bool>, edgeTo: map<int, Edge>,
                       rank: seq<int>, head: nat)
    requires Searching(E, n, s, visited, done, edgeTo, [], rank, head)
    ensures done == visited
  {
    CountFalseSubset(done, visited);
  }

  class MaxFlowFinder {
    const network: FlowNetwork
    const source: int
    const sink: int
    var augmentingPaths: seq<PathInfo>

    constructor (network: FlowNetwork, source: int, sink: int)
      ensures this.network == network && this.source == source && this.sink == sink
      ensures augmentingPaths == []
    {
      this.network := network;
      this.source := source;
      this.sink := sink;
      augmentingPaths := [];
    }

    /** Breadth-first search from the source through residual edges with
        positive residual capacity, stopping once the sink is visited. There is
        no path exactly when the sink cannot be reached; a path found leads
        from the source to the sink through edges of the residual network and
        never visits a vertex twice. */
    method FindAugmentingPath(residual: FlowNetwork) returns (path: Option<seq<Edge>>)
      requires residual.Valid()
      requires forall i :: 0 <= i < |residual.edges| ==> 0 <= residual.edges[i].to < residual.vertices
      requires 0 <= source < residual.vertices && 0 <= sink < residual.vertices
      ensures path.None? <==> !Reachable(residual.Snapshot(), source, sink)
      ensures path.Some? ==>
        IsPath(residual.Snapshot(), States(path.value), source, sink) &&
        Simple(States(path.value), source) &&
        forall k :: 0 <= k < |path.value| ==> path.value[k] in residual.edges
    {
      var visited, edgeTo, rank := Explore(residual);
      if !visited[sink] {
        return None;
      }
      var p := ReconstructPath(residual, visited, edgeTo, rank);
      path := Some(p);
    }

    /** The search loop: takes vertices off the queue in order and visits their
        neighbours, until the queue runs empty or the sink is visited. The
        sink is left unvisited only when it cannot be reached; every visited
        vertex but the source has a recorded edge into it from one visited
        earlier. */
    method Explore(residual: FlowNetwork) returns (visited: array<bool>, edgeTo: map<int, Edge>, ghost rank: seq<int>)
      requires residual.Valid()
      requires forall i :: 0 <= i < |residual.edges| ==> 0 <= residual.edges[i].to < residual.vertices
      requires 0 <= source < residual.vertices && 0 <= sink < residual.vertices
      ensures visited.Length == residual.vertices && visited[source]
      ensures !visited[sink] ==> !Reachable(residual.Snapshot(), source, sink)
      ensures Recorded(residual.edges, residual.vertices, source, visited[..], edgeTo, rank)
    {
      var n := residual.vertices;
      visited := new bool[n](_ => false);
      edgeTo := map[];
      var queue: seq<int> := [];
      visited[source] := true;
      queue := queue + [source];
      // Which vertices have been taken off the queue, how many, and for each
      // visited vertex how many were visited before it.
      ghost var done: seq<bool> := seq(n, x => false);
      ghost var head: nat := 0;
      rank := seq(n, x => 0);
      ghost var E := residual.edges;
      SearchStart(E, n, source);
      assert visited[..] == seq(n, x => false)[source := true];
      while queue != [] && !visited[sink]
        invariant visited.Length == n
        invariant Searching(E, n, source, visited[..], done, edgeTo, queue, rank, head)
        invariant Closed(E, n, done, visited[..])
        decreases n - head
      {
        edgeTo, queue, done, rank, head := ProcessNext(residual, visited, edgeTo, queue, done, rank, head);
      }

      if !visited[sink] {
        SearchFinished(E, n, source, visited[..], done, edgeTo, rank, head);
        ClosedEdgesBlockReach(E, visited[..], source, sink);
      }
    }

    /** One round of the search loop: takes the next vertex off the queue and
        visits its neighbours. */
    method ProcessNext(residual: FlowNetwork, visited: array<bool>, edgeTo0: map<int, Edge>, queue0: seq<int>,
                       ghost done0: seq<bool>, ghost rank0: seq<int>, ghost head0: nat)
      returns (edgeTo: map<int, Edge>, queue: seq<int>, ghost done: seq<bool>, ghost rank: seq<int>, ghost head: nat)
      requires residual.Valid()
      requires forall i :: 0 <= i < |residual.edges| ==> 0 <= residual.edges[i].to < residual.vertices
      requires visited.Length == residual.vertices && queue0 != []
      requires Searching(residual.edges, residual.vertices, source, visited[..], done0, edgeTo0, queue0, rank0, head0)
      requires Closed(residual.edges, residual.vertices, done0, visited[..])
      modifies visited
      ensures Searching(residual.edges, residual.vertices, source, visited[..], done, edgeTo, queue, rank, head)
      ensures Closed(residual.edges, residual.vertices, done, visited[..])
      ensures head == head0 + 1
    {
      ghost var E, n := residual.edges, residual.vertices;
      SearchPop(E, n, source, visited[..], done0, edgeTo0, queue0, rank0, head0);
      var v := queue0[0];
      queue := queue0[1..];
      ghost var visited0 := visited[..];
      done, head := done0[v := true], head0 + 1;
      var adjacent := residual.GetAdjacencyList(v);
      edgeTo, queue, rank := VisitNeighbours(E, n, v, adjacent, visited, done, edgeTo0, queue, rank0, head);
      CloseVertex(E, n, done0, visited0, visited[..], v, adjacent);
    }

    /** The inner loop of the search over the adjacency list of vertex v:
        visits, in list order, every vertex not yet visited that an edge with
        residual capacity leads to, recording that edge and appending the
        vertex to the queue. */
    method VisitNeighbours(ghost E: seq<Edge>, ghost n: nat, ghost v: int, adjacent: seq<Edge>,
                           visited: array<bool>, ghost done: seq<bool>, edgeTo0: map<int, Edge>,
                           queue0: seq<int>, ghost rank0: seq<int>, ghost head: nat)
      returns (edgeTo: map<int, Edge>, queue: seq<int>, ghost rank: seq<int>)
      requires visited.Length == n && Searching(E, n, source, visited[..], done, edgeTo0, queue0, rank0, head)
      requires 0 <= v < n && visited[v]
      requires forall m :: 0 <= m < |adjacent| ==>
        adjacent[m] in E && adjacent[m].from == v && 0 <= adjacent[m].to < n
      modifies visited
      ensures Searching(E, n, source, visited[..], done, edgeTo, queue, rank, head)
      ensures forall x :: 0 <= x < n && old(visited[x]) ==> visited[x]
      ensures forall m :: 0 <= m < |adjacent| && adjacent[m].capacity - adjacent[m].flow > 0 ==>
        visited[adjacent[m].to]
    {
      edgeTo, queue, rank := edgeTo0, queue0, rank0;
      for j := 0 to |adjacent|
        invariant Searching(E, n, source, visited[..], done, edgeTo, queue, rank, head)
        invariant forall x :: 0 <= x < n && old(visited[x]) ==> visited[x]
        invariant forall m :: 0 <= m < j && adjacent[m].capacity - adjacent[m].flow > 0 ==>
          visited[adjacent[m].to]
      {
        var edge := adjacent[j];
        var w := edge.to;
        if !visited[w] && edge.ResidualCapacity() > 0 {
          SearchVisit(E, n, source, visited[..], done, edgeTo, queue, rank, head, edge);
          edgeTo := edgeTo[w := edge];
          rank := rank[w := head + |queue|];
          visited[w] := true;
          queue := queue + [w];
        }
      }
    }

    /** Follows the recorded edges back from the sink to the source and
        returns them in order from the source. Every recorded edge leads from
        an earlier visited vertex to a later one, so the walk is simple. */
    method ReconstructPath(residual: FlowNetwork, visited: array<bool>, edgeTo: map<int, Edge>,
                           ghost rank: seq<int>) returns (p: seq<Edge>)
      requires 0 <= source < visited.Length && 0 <= sink < visited.Length && visited[sink]
      requires Recorded(residual.edges, visited.Length, source, visited[..], edgeTo, rank)
      ensures IsPath(residual.Snapshot(), States(p), source, sink) && Simple(States(p), source)
      ensures forall k :: 0 <= k < |p| ==> p[k] in residual.edges
    {
      p := [];
      var v := sink;
      while v != source
        invariant 0 <= v < visited.Length && visited[v]
        invariant forall k :: 0 <= k < |p| ==>
          p[k] in residual.edges && p[k].capacity - p[k].flow > 0 &&
          0 <= p[k].from < |rank| && 0 <= p[k].to < |rank| && rank[p[k].from] < rank[p[k].to]
        invariant forall k :: 0 <= k < |p| - 1 ==> p[k].to == p[k + 1].from
        invariant if p == [] then v == sink else p[0].from == v && p[|p| - 1].to == sink
        decreases rank[v]
      {
        var edge := edgeTo[v];
        p := [edge] + p;
        v := edge.from;
      }
      RankedPathIsSimple(residual.edges, p, source, sink, rank);
    }

    /** The running minimum of residual capacities along the path, started at
        IntMax. */
    method FindBottleneckCapacity(path: seq<Edge>) returns (b: int)
      ensures b == Bottleneck(States(path))
    {
      ghost var p := States(path);
      b := IntMax;
      for k := 0 to |path|
        invariant b == Bottleneck(p[..k])
      {
        assert p[..k + 1][..k] == p[..k];
        b := Min(b, path[k].ResidualCapacity());
      }
      assert p[..|path|] == p;
    }

    /** One search of updateFlow: walks the adjacency list of u for the first
        edge to v and, if there is one, adds delta to its flow (the walk stops
        there). That edge is the first edge u -> v of the whole edge list, and
        no other flow changes. */
    method AdjustFirst(u: int, v: int, delta: int) returns (found: bool)
      requires network.Valid() && 0 <= u < network.vertices
      modifies network.edges
      ensures found == FindArc(old(network.Snapshot()), u, v).Some?
      ensures network.Snapshot() == Adjust(old(network.Snapshot()), u, v, delta)
    {
      ghost var S := network.Snapshot();
      var adjacent := network.GetAdjacencyList(u);
      var m := FirstTo(adjacent, v);
      if m < |adjacent| {
        ghost var i := network.adjacency[u][m];
        FirstOutgoing(network.edges, u, v, m);
        AddToEdge(adjacent[m], i, delta);
        found := true;
      } else {
        NoOutgoing(network.edges, u, v);
        found := false;
      }
    }

    /** edge.setFlow(edge.getFlow() + delta) on the edge at position i of
        the edge list: only that flow changes. */
    method AddToEdge(edge: Edge, ghost i: nat, delta: int)
      requires network.Valid() && i < |network.edges| && network.edges[i] == edge
      modifies edge
      ensures network.Snapshot() == AddFlow(old(network.Snapshot()), i, delta)
    {
      edge.SetFlow(edge.flow + delta);
    }

    /** The position of the first edge to v in a list of edges, or the
        length of the list if there is none. */
    method FirstTo(adjacent: seq<Edge>, v: int) returns (m: nat)
      ensures m <= |adjacent| && forall m' :: 0 <= m' < m ==> adjacent[m'].to != v
      ensures m < |adjacent| ==> adjacent[m].to == v
    {
      m := 0;
      while m < |adjacent| && adjacent[m].to != v
        invariant m <= |adjacent|
        invariant forall m' :: 0 <= m' < m ==> adjacent[m'].to != v
      {
        m := m + 1;
      }
    }

    /** updateFlow for one residual edge u -> v: credit the first base edge
        u -> v, or failing that debit the first base edge v -> u. */
    method CreditResidualEdge(u: int, v: int, b: int)
      requires network.Valid() && 0 <= u < network.vertices
      requires 0 <= v < network.vertices || FindArc(network.Snapshot(), u, v).Some?
      modifies network.edges
      ensures network.Snapshot() == Credit(old(network.Snapshot()), u, v, b)
    {
      var isForward := AdjustFirst(u, v, b);
      if !isForward {
        var _ := AdjustFirst(v, u, -b);
      }
    }

    /** For each edge u -> v of the path, in order: adds the bottleneck to the
        first base edge u -> v on the adjacency list of u, or failing that
        takes it from the first base edge v -> u on the adjacency list of v. */
    method UpdateFlow(path: seq<Edge>, b: int, ghost S: seq<EdgeState>, ghost P: seq<EdgeState>)
      requires network.Valid() && network.Snapshot() == S && States(path) == P
      requires forall k :: 0 <= k < |path| ==> (0 <= path[k].from < network.vertices &&
        (0 <= path[k].to < network.vertices || FindArc(S, path[k].from, path[k].to).Some?))
      modifies network.edges
      ensures network.Valid() && network.Snapshot() == Augment(S, P, b)
    {
      for k := 0 to |path|
        invariant network.Snapshot() == Augment(S, P[..k], b)
      {
        assert P[..k + 1][..k] == P[..k];
        FindArcIgnoresFlow(S, network.Snapshot(), path[k].from, path[k].to);
        CreditResidualEdge(path[k].from, path[k].to, b);
      }
      assert P[..|path|] == P;
    }

    /** The network is well formed and its edges hold the flows S. */
    ghost predicate Holds(S: seq<EdgeState>)
      reads this, network, network.edges
    {
      network.Valid() && network.Snapshot() == S
    }

    /** p is a simple path from the source to the sink through the residual
        network of the flows S. */
    ghost predicate AugmentingPathOf(S: seq<EdgeState>, p: seq<EdgeState>)
    {
      IsPath(Residual(S), p, source, sink) && Simple(p, source)
    }

    /** On networks with fewer than 1000 vertices, paths records every
        augmentation so far with its running total; otherwise it is empty. */
    predicate Logged(paths: seq<PathInfo>, total: int)
    {
      (network.vertices < 1000 ==> RunningTotals(paths, total)) &&
      (network.vertices >= 1000 ==> paths == [])
    }

    /** Rebuilds the residual network of the current flows and searches it
        for an augmenting path. A path is found exactly when the sink is
        reachable: a found path is itself a witness. */
    method NextPath(ghost flows: seq<EdgeState>) returns (path: Option<seq<Edge>>)
      requires Holds(flows) && InRange(flows, network.vertices)
      requires 0 <= source < network.vertices && 0 <= sink < network.vertices
      ensures path.None? ==> !Reachable(Residual(flows), source, sink)
      ensures path.Some? ==> AugmentingPathOf(flows, States(path.value))
    {
      var residual := network.CreateResidualGraph();
      ResidualInRange(flows, network.vertices);
      path := FindAugmentingPath(residual);
    }

    /** Adds the bottleneck to the running total and, on networks with fewer
        than 1000 vertices, records the path with the new total. */
    method RecordPath(paths: seq<PathInfo>, p: seq<Edge>, maxFlow: int, b: int) returns (total: int, paths': seq<PathInfo>)
      requires Logged(paths, maxFlow) && b >= 1
      ensures total == maxFlow + b && Logged(paths', total)
      ensures network.vertices < 1000 ==> paths' == paths + [PathInfo(p, total, b)]
    {
      total := maxFlow + b;
      paths' := paths;
      if network.vertices < 1000 {
        RunningTotalsAppend(paths, maxFlow, p, b);
        paths' := paths + [PathInfo(p, total, b)];
        assert RunningTotals(paths', total);
      }
    }

    /** One round of the Edmonds-Karp loop: augment the flows along p by its
        bottleneck and, on networks with fewer than 1000 vertices, record p
        with its bottleneck and the new running total. The source's excess
        capacity strictly shrinks. */
    method AugmentOnce(p: seq<Edge>, ghost P: seq<EdgeState>, ghost S0: seq<EdgeState>, ghost flows: seq<EdgeState>,
                       maxFlow: int, paths: seq<PathInfo>)
      returns (ghost flows': seq<EdgeState>, total: int, paths': seq<PathInfo>)
      requires Holds(flows) && source != sink
      requires Progress(S0, flows, network.vertices, source, sink, maxFlow)
      requires States(p) == P && AugmentingPathOf(flows, P) && Logged(paths, maxFlow)
      modifies network.edges
      ensures total - maxFlow == Bottleneck(P) && flows' == Augment(flows, P, Bottleneck(P))
      ensures Holds(flows') && Progress(S0, flows', network.vertices, source, sink, total)
      ensures 0 <= OutCapacity(flows', source) - NetOut(flows', source) < OutCapacity(flows, source) - NetOut(flows, source)
      ensures Logged(paths', total)
      ensures network.vertices < 1000 ==> paths' == paths + [PathInfo(p, total, Bottleneck(P))]
    {
      var b := FindBottleneckCapacity(p);
      assert b == Bottleneck(P);
      ProgressRound(S0, flows, network.vertices, source, sink, maxFlow, P, b);
      RecordedPathInRange(flows, P, network.vertices);
      total, paths' := RecordPath(paths, p, maxFlow, b);
      UpdateFlow(p, b, flows, P);
      flows' := Augment(flows, P, b);
    }

    /** findMaxFlow: runs the Edmonds-Karp loop and keeps the recorded paths.
        With one base edge per pair of vertices, flows stay within capacities,
        the source gains and the sink loses exactly the returned total, every
        other vertex stays as it was, and in the end the sink cannot be
        reached in the residual network. The ghost trace lists the augmenting
        paths taken, in order: each was a simple augmenting path of the flows
        reached before it, the final flows are those of augmenting along each
        by its bottleneck, and the total is the sum of the bottlenecks. On
        networks with fewer than 1000 vertices record k holds the k-th path,
        its bottleneck and the running total. */
    method FindMaxFlow() returns (maxFlow: int, ghost trace: seq<seq<EdgeState>>)
      requires network.Valid() && InRange(network.Snapshot(), network.vertices)
      requires 0 <= source < network.vertices && 0 <= sink < network.vertices && source != sink
      requires Feasible(network.Snapshot()) && UniquePairs(network.Snapshot())
      modifies this, network.edges
      ensures SameShape(old(network.Snapshot()), network.Snapshot()) && Feasible(network.Snapshot())
      ensures forall w :: (NetOut(network.Snapshot(), w) ==
        NetOut(old(network.Snapshot()), w) + (if w == source then maxFlow else 0) - (if w == sink then maxFlow else 0))
      ensures !Reachable(Residual(network.Snapshot()), source, sink)
      ensures History(old(network.Snapshot()), trace, source, sink)
      ensures network.Snapshot() == Replay(old(network.Snapshot()), trace) && maxFlow == Pushed(trace)
      ensures network.vertices < 1000 ==> RunningTotals(augmentingPaths, maxFlow) && Describes(augmentingPaths, trace)
      ensures network.vertices >= 1000 ==> augmentingPaths == []
    {
      var paths;
      ghost var flows;
      maxFlow, paths, flows, trace := Saturate(network.Snapshot());
      augmentingPaths := paths;
    }

    /** The Edmonds-Karp loop: while the residual network of the current flows
        has a path from the source to the sink, augment along it by its
        bottleneck and rebuild the residual network. The records are collected
        in a local list, which findMaxFlow stores when the loop ends. */
    method Saturate(ghost S0: seq<EdgeState>)
      returns (maxFlow: int, paths: seq<PathInfo>, ghost flows: seq<EdgeState>, ghost trace: seq<seq<EdgeState>>)
      requires Holds(S0) && InRange(S0, network.vertices) && Feasible(S0) && UniquePairs(S0)
      requires 0 <= source < network.vertices && 0 <= sink < network.vertices && source != sink
      modifies network.edges
      ensures Holds(flows) && Progress(S0, flows, network.vertices, source, sink, maxFlow)
      ensures !Reachable(Residual(flows), source, sink) && Logged(paths, maxFlow)
      ensures History(S0, trace, source, sink) && flows == Replay(S0, trace) && maxFlow == Pushed(trace)
      ensures network.vertices < 1000 ==> Describes(paths, trace)
    {
      flows := S0;
      ProgressStart(S0, network.vertices, source, sink);
      maxFlow := 0;
      paths := [];
      trace := [];
      while true
        invariant Holds(flows) && Progress(S0, flows, network.vertices, source, sink, maxFlow)
        invariant Logged(paths, maxFlow)
        invariant History(S0, trace, source, sink) && flows == Replay(S0, trace) && maxFlow == Pushed(trace)
        invariant network.vertices < 1000 ==> Describes(paths, trace)
        decreases OutCapacity(flows, source) - NetOut(flows, source)
      {
        var path := NextPath(flows);
        if path.None? {
          break;
        }
        flows, maxFlow, paths, trace := Round(path.value, S0, flows, maxFlow, paths, trace);
      }
    }

    /** One round of the loop together with its ghost history: the path found
        joins the trace and, below 1000 vertices, the records. */
    method Round(p: seq<Edge>, ghost S0: seq<EdgeState>, ghost flows: seq<EdgeState>, maxFlow: int,
                 paths: seq<PathInfo>, ghost trace: seq<seq<EdgeState>>)
      returns (ghost flows': seq<EdgeState>, total: int, paths': seq<PathInfo>, ghost trace': seq<seq<EdgeState>>)
      requires Holds(flows) && Progress(S0, flows, network.vertices, source, sink, maxFlow) && source != sink
      requires Logged(paths, maxFlow) && AugmentingPathOf(flows, States(p))
      requires History(S0, trace, source, sink) && flows == Replay(S0, trace) && maxFlow == Pushed(trace)
      requires network.vertices < 1000 ==> Describes(paths, trace)
      modifies network.edges
      ensures Holds(flows') && Progress(S0, flows', network.vertices, source, sink, total)
      ensures 0 <= OutCapacity(flows', source) - NetOut(flows', source) < OutCapacity(flows, source) - NetOut(flows, source)
      ensures Logged(paths', total)
      ensures History(S0, trace', source, sink) && flows' == Replay(S0, trace') && total == Pushed(trace')
      ensures network.vertices < 1000 ==> Describes(paths', trace')
    {
      ghost var P := States(p);
      ResidualPathArcs(p, flows);
      flows', total, paths' := AugmentOnce(p, P, S0, flows, maxFlow, paths);
      trace' := trace + [P];
      if network.vertices < 1000 {
        RecordRound(S0, trace, P, source, sink, paths, p, total);
      } else {
        HistoryRound(S0, trace, P, source, sink);
      }
    }
  }
}
