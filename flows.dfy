/** Value-level view of a flow network: the state of each edge, the residual
    network the source rebuilds from those states, and the net flow through a
    vertex. The classes in Edges and Networks are proved against these
    definitions. */
module Flows {

  datatype Option<T> = None | Some(value: T)

  /** Integer.MAX_VALUE, which the source uses as "+infinity" when it starts
      a running minimum. */
  const IntMax: int := 0x7fff_ffff

  /** Math.min on two integers. */
  function Min(a: int, b: int): int
  {
    if a <= b then a else b
  }

  /** One edge: its endpoints and capacity, fixed when it is built, and its
      current flow. */
  datatype EdgeState = EdgeState(from: int, to: int, capacity: int, flow: int)

  function ResidualCapacity(e: EdgeState): int
  {
    e.capacity - e.flow
  }

  /** Every edge carries a flow between zero and its capacity. */
  ghost predicate Feasible(es: seq<EdgeState>)
  {
    forall i :: 0 <= i < |es| ==> 0 <= es[i].flow <= es[i].capacity
  }

  /** Two edges join the same two vertices, in either direction. */
  predicate SamePair(a: EdgeState, b: EdgeState)
  {
    (a.from == b.from && a.to == b.to) || (a.from == b.to && a.to == b.from)
  }

  /** At most one edge joins any two vertices: no parallel and no antiparallel edges. */
  ghost predicate UniquePairs(es: seq<EdgeState>)
  {
    forall i, j :: 0 <= i < j < |es| ==> !SamePair(es[i], es[j])
  }

  /** Two edge lists that differ at most in their flows. */
  ghost predicate SameShape(a: seq<EdgeState>, b: seq<EdgeState>)
  {
    |a| == |b| &&
    forall i :: 0 <= i < |a| ==>
      a[i].from == b[i].from && a[i].to == b[i].to && a[i].capacity == b[i].capacity
  }

  // ---------------------------------------------------------------------
  // The residual network

  /** r is the forward residual edge of e: same direction, the unused capacity. */
  predicate IsForwardOf(r: EdgeState, e: EdgeState)
  {
    e.capacity - e.flow > 0 && r == EdgeState(e.from, e.to, e.capacity - e.flow, 0)
  }

  /** r is the backward residual edge of e: reversed, the current flow as capacity. */
  predicate IsBackwardOf(r: EdgeState, e: EdgeState)
  {
    e.flow > 0 && r == EdgeState(e.to, e.from, e.flow, 0)
  }

  /** The residual edges one base edge contributes, in the order they are added. */
  function Contribution(e: EdgeState): seq<EdgeState>
  {
    (if e.capacity - e.flow > 0 then [EdgeState(e.from, e.to, e.capacity - e.flow, 0)] else []) +
    (if e.flow > 0 then [EdgeState(e.to, e.from, e.flow, 0)] else [])
  }

  /** The residual network of es: for each base edge in order, its forward
      edge if it has capacity left, then its backward edge if it carries flow. */
  function Residual(es: seq<EdgeState>): (r: seq<EdgeState>)
    ensures |r| <= 2 * |es|
    ensures forall k :: 0 <= k < |r| ==> r[k].flow == 0 && r[k].capacity > 0
  {
    if es == [] then [] else Residual(es[..|es| - 1]) + Contribution(es[|es| - 1])
  }

  /** An edge is in the residual network exactly when it is the forward or the
      backward residual edge of some base edge. */
  lemma ResidualMembers(es: seq<EdgeState>, r: EdgeState)
    ensures r in Residual(es) <==>
      exists i :: 0 <= i < |es| && (IsForwardOf(r, es[i]) || IsBackwardOf(r, es[i]))
  {
    if r in Residual(es) {
      var i := ResidualSource(es, r);
    }
    if i :| 0 <= i < |es| && (IsForwardOf(r, es[i]) || IsBackwardOf(r, es[i])) {
      ResidualComplete(es, i, r);
    }
  }

  /** Every residual edge comes from some base edge. */
  lemma {:induction false} ResidualSource(es: seq<EdgeState>, r: EdgeState) returns (i: nat)
    requires r in Residual(es)
    ensures i < |es| && (IsForwardOf(r, es[i]) || IsBackwardOf(r, es[i]))
  {
    var n := |es| - 1;
    if r in Residual(es[..n]) {
      i := ResidualSource(es[..n], r);
      assert es[..n][i] == es[i];
    } else {
      assert r in Contribution(es[n]);
      i := n;
    }
  }

  /** Every base edge contributes its forward and backward residual edges. */
  lemma {:induction false} ResidualComplete(es: seq<EdgeState>, i: nat, r: EdgeState)
    requires i < |es| && (IsForwardOf(r, es[i]) || IsBackwardOf(r, es[i]))
    ensures r in Residual(es)
  {
    var n := |es| - 1;
    if i < n {
      assert es[..n][i] == es[i];
      ResidualComplete(es[..n], i, r);
    } else {
      assert r in Contribution(es[n]);
    }
  }

  /** Every edge joins two of the vertices 0 .. n-1. */
  ghost predicate InRange(es: seq<EdgeState>, n: int)
  {
    forall i :: 0 <= i < |es| ==> 0 <= es[i].from < n && 0 <= es[i].to < n
  }

  /** Residual edges join the same vertices as the base edges they come from. */
  lemma ResidualInRange(es: seq<EdgeState>, n: int)
    requires InRange(es, n)
    ensures InRange(Residual(es), n)
  {
    var r := Residual(es);
    forall k | 0 <= k < |r| ensures 0 <= r[k].from < n && 0 <= r[k].to < n {
      ResidualMembers(es, r[k]);
    }
  }

  // ---------------------------------------------------------------------
  // Net flow

  /** What e contributes to the net outflow of w (a self-loop contributes nothing). */
  function Excess(e: EdgeState, w: int): int
  {
    (if e.from == w then e.flow else 0) - (if e.to == w then e.flow else 0)
  }

  /** Flow leaving w minus flow entering w. */
  function NetOut(es: seq<EdgeState>, w: int): int
  {
    if es == [] then 0 else NetOut(es[..|es| - 1], w) + Excess(es[|es| - 1], w)
  }

  /** Total capacity of the edges leaving w. */
  function OutCapacity(es: seq<EdgeState>, w: int): int
  {
    if es == [] then 0
    else OutCapacity(es[..|es| - 1], w) + (if es[|es| - 1].from == w then es[|es| - 1].capacity else 0)
  }

  /** Changing the flow of one edge changes the net outflow of w by exactly
      that edge's change in contribution. */
  lemma {:induction false} NetOutUpdate(es: seq<EdgeState>, i: nat, f: int, w: int)
    requires i < |es|
    ensures NetOut(es[i := es[i].(flow := f)], w)
         == NetOut(es, w) + Excess(es[i].(flow := f), w) - Excess(es[i], w)
  {
    var n := |es| - 1;
    var es' := es[i := es[i].(flow := f)];
    if i == n {
      assert es'[..n] == es[..n];
    } else {
      assert es'[..n] == es[..n][i := es[i].(flow := f)];
      NetOutUpdate(es[..n], i, f, w);
    }
  }

  /** With feasible flows, no vertex sends out more than the capacity of its
      outgoing edges. */
  lemma {:induction false} NetOutBound(es: seq<EdgeState>, w: int)
    requires Feasible(es)
    ensures NetOut(es, w) <= OutCapacity(es, w)
  {
    if es != [] {
      var n := |es| - 1;
      assert Feasible(es[..n]) by {
        forall i | 0 <= i < n ensures 0 <= es[..n][i].flow <= es[..n][i].capacity {
          assert es[..n][i] == es[i];
        }
      }
      NetOutBound(es[..n], w);
    }
  }

  /** Net outflow and outgoing capacity do not depend on anything but flows,
      endpoints and capacities; in particular OutCapacity ignores flows. */
  lemma {:induction false} OutCapacityIgnoresFlow(a: seq<EdgeState>, b: seq<EdgeState>, w: int)
    requires SameShape(a, b)
    ensures OutCapacity(a, w) == OutCapacity(b, w)
  {
    if a != [] {
      var n := |a| - 1;
      assert SameShape(a[..n], b[..n]);
      OutCapacityIgnoresFlow(a[..n], b[..n], w);
    }
  }

  /** Flow changes keep "at most one edge per vertex pair". */
  lemma UniquePairsIgnoresFlow(a: seq<EdgeState>, b: seq<EdgeState>)
    requires SameShape(a, b) && UniquePairs(a)
    ensures UniquePairs(b)
  {
    forall i, j | 0 <= i < j < |b| ensures !SamePair(b[i], b[j]) {
      assert !SamePair(a[i], a[j]);
    }
  }
}
