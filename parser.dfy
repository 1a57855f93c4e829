/** NetworkParser.validateNetwork (src/networkflow/NetworkParser.java): the
    checks a parsed network must pass before a maximum flow is computed. The
    source prints one error line and returns false; here the verdict names
    the check that failed, and it is accepted exactly when the source
    returns true. */
module Parser {
  import opened Flows
  import opened Edges
  import opened Networks

  /** The outcome of validation: accepted, or the first problem found. */
  datatype Verdict =
    | Accepted
    | TooFewVertices
    | InvalidSource(vertex: int)
    | InvalidDestination(vertex: int)
    | NegativeCapacity(capacity: int)

  /** What one edge of a network with n vertices is found to violate, if
      anything: the start vertex is checked first, then the end vertex, then
      the capacity. */
  function EdgeProblem(n: int, e: EdgeState): Verdict
  {
    if e.from < 0 || e.from >= n then InvalidSource(e.from)
    else if e.to < 0 || e.to >= n then InvalidDestination(e.to)
    else if e.capacity < 0 then NegativeCapacity(e.capacity)
    else Accepted
  }

  /** The problem of the first edge, in list order, that has one. */
  function FirstEdgeProblem(n: int, es: seq<EdgeState>): Verdict
  {
    if es == [] then Accepted
    else if EdgeProblem(n, es[0]) != Accepted then EdgeProblem(n, es[0])
    else FirstEdgeProblem(n, es[1..])
  }

  /** The verdict on a network with n vertices and the given edges. */
  function Validate(n: int, es: seq<EdgeState>): Verdict
  {
    if n < 2 then TooFewVertices else FirstEdgeProblem(n, es)
  }

  /** A network the source accepts: a source and a sink at least, every
      edge between two of its vertices, and no negative capacity. */
  ghost predicate WellFormed(n: int, es: seq<EdgeState>)
  {
    n >= 2 && InRange(es, n) && forall i :: 0 <= i < |es| ==> es[i].capacity >= 0
  }

  /** No edge has a problem exactly when the first-problem search finds none;
      otherwise it reports the problem of some edge i, and every edge before i
      passes. */
  lemma {:induction false} FirstEdgeProblemSpec(n: int, es: seq<EdgeState>)
    ensures FirstEdgeProblem(n, es) == Accepted <==> forall i :: 0 <= i < |es| ==> EdgeProblem(n, es[i]) == Accepted
    ensures FirstEdgeProblem(n, es) != Accepted ==>
      exists i :: (0 <= i < |es| && FirstEdgeProblem(n, es) == EdgeProblem(n, es[i]) &&
        forall j :: 0 <= j < i ==> EdgeProblem(n, es[j]) == Accepted)
  {
    if es != [] && EdgeProblem(n, es[0]) == Accepted {
      FirstEdgeProblemSpec(n, es[1..]);
      assert forall i :: 1 <= i < |es| ==> es[1..][i - 1] == es[i];
      if FirstEdgeProblem(n, es[1..]) != Accepted {
        var i :| 0 <= i < |es[1..]| && FirstEdgeProblem(n, es[1..]) == EdgeProblem(n, es[1..][i]) &&
          forall j :: 0 <= j < i ==> EdgeProblem(n, es[1..][j]) == Accepted;
        assert forall j :: 0 <= j < i + 1 ==> EdgeProblem(n, es[j]) == Accepted by {
          forall j | 0 <= j < i + 1 ensures EdgeProblem(n, es[j]) == Accepted {
            if j > 0 {
              assert es[j] == es[1..][j - 1];
            }
          }
        }
      }
    }
  }

  /** The network is accepted exactly when it is well formed. */
  lemma ValidateAccepts(n: int, es: seq<EdgeState>)
    ensures Validate(n, es) == Accepted <==> WellFormed(n, es)
  {
    FirstEdgeProblemSpec(n, es);
  }

  /** A rejection names a real problem: too few vertices, or the problem of
      the first offending edge, all edges before it passing. */
  lemma ValidateRejects(n: int, es: seq<EdgeState>)
    requires Validate(n, es) != Accepted
    ensures Validate(n, es) == TooFewVertices <==> n < 2
    ensures n >= 2 ==> exists i :: (0 <= i < |es| && Validate(n, es) == EdgeProblem(n, es[i]) &&
      forall j :: 0 <= j < i ==> EdgeProblem(n, es[j]) == Accepted)
  {
    FirstEdgeProblemSpec(n, es);
  }

  /** validateNetwork: fewer than two vertices is rejected; otherwise the
      edges are checked in list order and the first problem is reported. */
  method ValidateNetwork(network: FlowNetwork) returns (verdict: Verdict)
    ensures verdict == Validate(network.vertices, network.Snapshot())
    ensures verdict == Accepted <==> WellFormed(network.vertices, network.Snapshot())
  {
    ghost var S := network.Snapshot();
    ValidateAccepts(network.vertices, S);
    var vertices := network.vertices;
    if vertices < 2 {
      return TooFewVertices;
    }
    var edges := network.edges;
    for k := 0 to |edges|
      invariant FirstEdgeProblem(vertices, S) == FirstEdgeProblem(vertices, S[k..])
    {
      var edge := edges[k];
      assert S[k..][0] == S[k] && S[k..][1..] == S[k + 1..];
      if edge.from < 0 || edge.from >= vertices {
        return InvalidSource(edge.from);
      }
      if edge.to < 0 || edge.to >= vertices {
        return InvalidDestination(edge.to);
      }
      if edge.capacity < 0 {
        return NegativeCapacity(edge.capacity);
      }
    }
    return Accepted;
  }
}
