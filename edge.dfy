/** The edge object shared by the base network's edge list and its adjacency
    lists: endpoints and capacity fixed at construction, flow mutable. */
module Edges {
  import opened Flows

  class Edge {
    const from: int
    const to: int
    const capacity: int
    var flow: int

    /** A new edge carries no flow, so all of its capacity is residual. */
    constructor (from: int, to: int, capacity: int)
      ensures this.from == from && this.to == to && this.capacity == capacity
      ensures flow == 0 && ResidualCapacity() == capacity
    {
      this.from := from;
      this.to := to;
      this.capacity := capacity;
      flow := 0;
    }

    function ResidualCapacity(): int
      reads this
    {
      capacity - flow
    }

    /** The value this edge holds now. */
    ghost function State(): EdgeState
      reads this
    {
      EdgeState(from, to, capacity, flow)
    }

    /** Overwrites the flow, with no range check: a negative flow or one above
        capacity is stored as given. Endpoints and capacity are constants. */
    method SetFlow(x: int)
      modifies this
      ensures flow == x && ResidualCapacity() == capacity - x
    {
      flow := x;
    }
  }

  /** The edges es as values with flow 0: how an edge of a residual network
      is built. Endpoints and capacity are constants, so this does not depend
      on the heap. */
  function Arcs(es: seq<Edge>): seq<EdgeState>
  {
    seq(|es|, i requires 0 <= i < |es| => EdgeState(es[i].from, es[i].to, es[i].capacity, 0))
  }

  /** The values a sequence of edge objects holds now. */
  ghost function States(es: seq<Edge>): (r: seq<EdgeState>)
    reads es
    ensures |r| == |es| && forall i :: 0 <= i < |es| ==> r[i] == es[i].State()
  {
    seq(|es|, i requires 0 <= i < |es| reads es => es[i].State())
  }
}
