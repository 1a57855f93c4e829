/** The object-graph flow network (src/networkflow/FlowNetwork.java): an edge
    list and one adjacency list per vertex holding the same Edge objects. The
    edge list is an arena of objects; an adjacency list holds indices into it. */
module Networks {
  import opened Flows
  import opened Edges

  /** Indices, in increasing order, of the edges of es that leave v. */
  function Outgoing(es: seq<Edge>, v: int): (r: seq<nat>)
    ensures forall j :: 0 <= j < |r| ==> r[j] < |es| && es[r[j]].from == v
    ensures forall j, k :: 0 <= j < k < |r| ==> r[j] < r[k]
    ensures forall i :: 0 <= i < |es| && es[i].from == v ==> i in r
  {
    if es == [] then []
    else Outgoing(es[..|es| - 1], v) + (if es[|es| - 1].from == v then [|es| - 1] else [])
  }

  /** The edges of es that leave v, in their order in es. */
  function EdgesFrom(es: seq<Edge>, v: int): (r: seq<Edge>)
    ensures forall j :: 0 <= j < |r| ==> r[j] in es && r[j].from == v
    ensures forall i :: 0 <= i < |es| && es[i].from == v ==> es[i] in r
  {
    if es == [] then []
    else EdgesFrom(es[..|es| - 1], v) + (if es[|es| - 1].from == v then [es[|es| - 1]] else [])
  }

  /** The edges at the given indices, in the order of the indices. */
  function Select(es: seq<Edge>, idx: seq<nat>): (r: seq<Edge>)
    requires forall j :: 0 <= j < |idx| ==> idx[j] < |es|
    ensures |r| == |idx| && forall j :: 0 <= j < |idx| ==> r[j] == es[idx[j]]
  {
    seq(|idx|, j requires 0 <= j < |idx| => es[idx[j]])
  }

  /** Picking the edges at the indices Outgoing lists gives exactly the edges
      leaving v, in order. */
  lemma {:induction false} SelectOutgoing(es: seq<Edge>, v: int)
    ensures Select(es, Outgoing(es, v)) == EdgesFrom(es, v)
  {
    if es != [] {
      var n := |es| - 1;
      SelectOutgoing(es[..n], v);
      var a := Outgoing(es[..n], v);
      assert Select(es, a) == Select(es[..n], a);
    }
  }

  class FlowNetwork {
    const vertices: nat
    var adjacency: seq<seq<nat>>
    var edges: seq<Edge>

    /** One adjacency list per vertex, listing in order exactly the edges that
        leave it; edges are distinct objects and start at a vertex of the network. */
    ghost predicate Valid()
      reads this
    {
      |adjacency| == vertices &&
      (forall i, j :: 0 <= i < j < |edges| ==> edges[i] != edges[j]) &&
      (forall i :: 0 <= i < |edges| ==> 0 <= edges[i].from < vertices) &&
      (forall v :: 0 <= v < vertices ==> adjacency[v] == Outgoing(edges, v))
    }

    /** The values the edges hold now, in insertion order. */
    ghost function Snapshot(): seq<EdgeState>
      reads this, edges
    {
      States(edges)
    }

    /** A network with n vertices, no edges and n empty adjacency lists. */
    constructor (n: nat)
      ensures Valid() && vertices == n && edges == []
      ensures |adjacency| == n && forall v :: 0 <= v < n ==> adjacency[v] == []
    {
      var lists: seq<seq<nat>> := [];
      for i := 0 to n
        invariant |lists| == i && forall v :: 0 <= v < i ==> lists[v] == []
      {
        lists := lists + [[]];
      }
      vertices := n;
      adjacency := lists;
      edges := [];
    }

    /** Appends a new edge with no flow to the edge list and to the adjacency
        list of its start; every other list and every existing edge is unchanged. */
    method AddEdge(from: int, to: int, capacity: int)
      requires Valid() && 0 <= from < vertices
      modifies this
      ensures Valid()
      ensures |edges| == |old(edges)| + 1 && edges[..|old(edges)|] == old(edges)
      ensures fresh(edges[|old(edges)|])
      ensures Snapshot() == old(Snapshot()) + [EdgeState(from, to, capacity, 0)]
      ensures adjacency == old(adjacency)[from := old(adjacency)[from] + [|old(edges)|]]
    {
      var e := new Edge(from, to, capacity);
      adjacency := adjacency[from := adjacency[from] + [|edges|]];
      edges := edges + [e];
      assert edges[..|edges| - 1] == old(edges);
      forall v | 0 <= v < vertices ensures adjacency[v] == Outgoing(edges, v) {
      }
    }

    /** The loop body of CreateResidualGraph: adds the residual edges of one
        base edge, forward first. */
    method AddContribution(from: int, to: int, capacity: int, flow: int)
      requires Valid() && 0 <= from < vertices && (flow > 0 ==> 0 <= to < vertices)
      modifies this
      ensures Valid() && |old(edges)| <= |edges| && edges[..|old(edges)|] == old(edges)
      ensures forall j :: |old(edges)| <= j < |edges| ==> fresh(edges[j])
      ensures Snapshot() == old(Snapshot()) + Contribution(EdgeState(from, to, capacity, flow))
    {
      if capacity - flow > 0 {
        AddEdge(from, to, capacity - flow);
      }
      if flow > 0 {
        AddEdge(to, from, flow);
      }
    }

    /** The adjacency list of v: the edges of the edge list that leave v, in
        insertion order, as the very same objects. */
    function GetAdjacencyList(v: int): (r: seq<Edge>)
      reads this
      requires Valid() && 0 <= v < vertices
      ensures r == EdgesFrom(edges, v)
      ensures |r| == |adjacency[v]| && forall j :: 0 <= j < |r| ==> r[j] == edges[adjacency[v][j]]
    {
      SelectOutgoing(edges, v);
      Select(edges, adjacency[v])
    }

    /** A new network over the same vertices holding, for each edge in order,
        a forward edge with the unused capacity if there is any and a backward
        edge with the flow if there is any; all new edges carry no flow, and
        this network is left as it was. */
    method CreateResidualGraph() returns (residual: FlowNetwork)
      requires Valid()
      requires forall i :: 0 <= i < |edges| && edges[i].flow > 0 ==> 0 <= edges[i].to < vertices
      ensures fresh(residual) && residual.Valid() && residual.vertices == vertices
      ensures forall j :: 0 <= j < |residual.edges| ==> fresh(residual.edges[j])
      ensures residual.Snapshot() == Residual(Snapshot())
    {
      residual := new FlowNetwork(vertices);
      ghost var base := Snapshot();
      for i := 0 to |edges|
        invariant residual.Valid() && residual.vertices == vertices
        invariant forall j :: 0 <= j < |residual.edges| ==> fresh(residual.edges[j])
        invariant residual.Snapshot() == Residual(base[..i])
      {
        var edge := edges[i];
        assert edge.State() == base[i];
        residual.AddContribution(edge.from, edge.to, edge.capacity, edge.flow);
        assert Residual(base[..i + 1]) == Residual(base[..i]) + Contribution(base[i]) by {
          assert base[..i + 1][..i] == base[..i];
        }
      }
      assert base[..|edges|] == base;
    }
  }
}
