/** The flow update along an augmenting path as the source performs it: each
    residual edge u -> v is mapped back to a base edge by looking for the first
    base edge u -> v, and failing that the first base edge v -> u. */
module Augmenting {
  import opened Flows
  import opened Paths

  /** The index of the first edge of es that goes from u to v, if any. */
  function FindArc(es: seq<EdgeState>, u: int, v: int): (r: Option<nat>)
    ensures r.Some? ==> r.value < |es| && es[r.value].from == u && es[r.value].to == v
    ensures r.Some? ==> forall i :: 0 <= i < r.value ==> !(es[i].from == u && es[i].to == v)
    ensures r.None? ==> forall i :: 0 <= i < |es| ==> !(es[i].from == u && es[i].to == v)
  {
    if es == [] then None
    else if es[0].from == u && es[0].to == v then Some(0)
    else match FindArc(es[1..], u, v)
      case None => None
      case Some(i) => Some(i + 1)
  }

  /** The flows with d added to that of edge i. */
  function AddFlow(es: seq<EdgeState>, i: nat, d: int): seq<EdgeState>
    requires i < |es|
  {
    es[i := es[i].(flow := es[i].flow + d)]
  }

  /** The flows with d added to that of the first edge u -> v, if any. */
  function Adjust(es: seq<EdgeState>, u: int, v: int, d: int): seq<EdgeState>
  {
    match FindArc(es, u, v)
    case Some(i) => AddFlow(es, i, d)
    case None => es
  }

  /** What one residual edge u -> v does to the base flows: the first base edge
      u -> v gains b; if there is none, the first base edge v -> u loses b; if
      there is neither, nothing changes. */
  function Credit(es: seq<EdgeState>, u: int, v: int, b: int): seq<EdgeState>
  {
    if FindArc(es, u, v).Some? then Adjust(es, u, v, b) else Adjust(es, v, u, -b)
  }

  /** The base flows after crediting every edge of the path p, first to last. */
  function Augment(es: seq<EdgeState>, p: seq<EdgeState>, b: int): (r: seq<EdgeState>)
    ensures SameShape(es, r)
  {
    if p == [] then es
    else
      var prev := Augment(es, p[..|p| - 1], b);
      var last := p[|p| - 1];
      Credit(prev, last.from, last.to, b)
  }

  /** The search for the first matching edge only looks at endpoints. */
  lemma FindArcIgnoresFlow(a: seq<EdgeState>, b: seq<EdgeState>, u: int, v: int)
    requires SameShape(a, b)
    ensures FindArc(a, u, v) == FindArc(b, u, v)
  {
    var ra, rb := FindArc(a, u, v), FindArc(b, u, v);
    if ra.Some? {
      assert b[ra.value].from == u && b[ra.value].to == v;
    }
    if rb.Some? {
      assert a[rb.value].from == u && a[rb.value].to == v;
    }
  }

  /** Every residual edge finds a base edge to credit: its own base edge, or
      an earlier one joining the same vertices. */
  lemma ResidualEdgeFindsArc(es: seq<EdgeState>, r: EdgeState)
    requires r in Residual(es)
    ensures FindArc(es, r.from, r.to).Some? || FindArc(es, r.to, r.from).Some?
  {
    ResidualMembers(es, r);
    var i :| 0 <= i < |es| && (IsForwardOf(r, es[i]) || IsBackwardOf(r, es[i]));
  }

  /** Crediting u -> v adds b to the net outflow of u and takes b from that of
      v, whichever base edge is credited. */
  lemma CreditNetOut(es: seq<EdgeState>, u: int, v: int, b: int, w: int)
    requires FindArc(es, u, v).Some? || FindArc(es, v, u).Some?
    ensures NetOut(Credit(es, u, v, b), w)
         == NetOut(es, w) + (if w == u then b else 0) - (if w == v then b else 0)
  {
    match FindArc(es, u, v)
    case Some(i) =>
      NetOutUpdate(es, i, es[i].flow + b, w);
    case None =>
      var i := FindArc(es, v, u).value;
      NetOutUpdate(es, i, es[i].flow - b, w);
  }

  /** Augmenting along a walk from s to t through the residual network moves b
      units of net outflow from t to s and leaves every other vertex balanced
      as it was, whatever edges the update credits. */
  lemma {:induction false} AugmentNetOut(es: seq<EdgeState>, p: seq<EdgeState>, s: int, t: int, b: int, w: int)
    requires forall k :: 0 <= k < |p| ==> p[k] in Residual(es)
    requires Linked(p) && (if p == [] then s == t else p[0].from == s && p[|p| - 1].to == t)
    ensures NetOut(Augment(es, p, b), w)
         == NetOut(es, w) + (if w == s then b else 0) - (if w == t then b else 0)
  {
    if p != [] {
      var n := |p| - 1;
      var q := p[..n];
      var mid := if n == 0 then s else p[n - 1].to;
      assert Linked(q);
      assert if q == [] then s == mid else q[0].from == s && q[|q| - 1].to == mid;
      AugmentNetOut(es, q, s, mid, b, w);
      var prev := Augment(es, q, b);
      ResidualEdgeFindsArc(es, p[n]);
      FindArcIgnoresFlow(es, prev, p[n].from, p[n].to);
      FindArcIgnoresFlow(es, prev, p[n].to, p[n].from);
      CreditNetOut(prev, p[n].from, p[n].to, b, w);
    }
  }

  /** The base edge a residual edge was built from. */
  ghost function Origin(es: seq<EdgeState>, r: EdgeState): (i: nat)
    requires r in Residual(es)
    ensures i < |es| && (IsForwardOf(r, es[i]) || IsBackwardOf(r, es[i]))
  {
    ResidualMembers(es, r);
    var i :| 0 <= i < |es| && (IsForwardOf(r, es[i]) || IsBackwardOf(r, es[i]));
    i
  }

  /** Under UniquePairs, two base edges joining the same vertices are one edge. */
  lemma SamePairSameIndex(es: seq<EdgeState>, i: nat, j: nat)
    requires UniquePairs(es) && i < |es| && j < |es| && SamePair(es[i], es[j])
    ensures i == j
  {
  }

  /** With at most one base edge per vertex pair, the endpoint search credits
      exactly the base edge a (non-loop) residual edge came from: forward edges
      add to it and backward edges subtract from it. Flows may have moved since
      the residual network was built; only the endpoints matter. */
  lemma CreditHitsOrigin(es: seq<EdgeState>, cur: seq<EdgeState>, r: EdgeState, b: int)
    requires r in Residual(es) && UniquePairs(es) && r.from != r.to && SameShape(es, cur)
    ensures var i := Origin(es, r);
      Credit(cur, r.from, r.to, b)
        == cur[i := cur[i].(flow := cur[i].flow + (if es[i].from == r.from then b else -b))]
  {
    var i := Origin(es, r);
    FindArcIgnoresFlow(es, cur, r.from, r.to);
    FindArcIgnoresFlow(es, cur, r.to, r.from);
    match FindArc(es, r.from, r.to)
    case Some(j) =>
      SamePairSameIndex(es, i, j);
    case None =>
      match FindArc(es, r.to, r.from)
      case Some(j) =>
        SamePairSameIndex(es, i, j);
      case None =>
  }

  /** Distinct edges of a simple residual walk come from distinct base edges. */
  lemma DistinctOrigins(es: seq<EdgeState>, p: seq<EdgeState>, s: int, j: nat, k: nat)
    requires UniquePairs(es)
    requires forall m :: 0 <= m < |p| ==> p[m] in Residual(es)
    requires Linked(p) && (p != [] ==> p[0].from == s) && Simple(p, s)
    requires j < |p| && k < |p| && j != k
    ensures Origin(es, p[j]) != Origin(es, p[k])
  {
    SimpleEdgesDistinctPairs(p, s, j, k);
    var i := Origin(es, p[j]);
    assert SamePair(p[j], es[i]);
  }

  /** Crediting one residual edge whose base edge still has the flow the
      residual network was built from, by at most its residual capacity, keeps
      flows feasible and touches no other base edge. */
  lemma CreditFeasible(es: seq<EdgeState>, cur: seq<EdgeState>, r: EdgeState, b: int)
    requires UniquePairs(es) && r in Residual(es) && r.from != r.to && SameShape(es, cur)
    requires Feasible(cur) && cur[Origin(es, r)].flow == es[Origin(es, r)].flow
    requires 0 <= b <= ResidualCapacity(r)
    ensures Feasible(Credit(cur, r.from, r.to, b))
    ensures forall i :: 0 <= i < |cur| && i != Origin(es, r) ==> Credit(cur, r.from, r.to, b)[i] == cur[i]
  {
    CreditHitsOrigin(es, cur, r, b);
  }

  /** The induction behind AugmentFeasible: after crediting the first k edges
      of a simple augmenting path, flows are feasible and the base edges of the
      remaining path edges are untouched. */
  lemma {:induction false} AugmentPrefixFeasible(es: seq<EdgeState>, p: seq<EdgeState>, s: int, t: int, b: int, k: nat)
    requires Feasible(es) && UniquePairs(es)
    requires IsPath(Residual(es), p, s, t) && Simple(p, s)
    requires 0 <= b && forall m :: 0 <= m < |p| ==> b <= ResidualCapacity(p[m])
    requires k <= |p|
    ensures Feasible(Augment(es, p[..k], b))
    ensures forall j :: k <= j < |p| ==>
      Augment(es, p[..k], b)[Origin(es, p[j])].flow == es[Origin(es, p[j])].flow
  {
    if k == 0 {
      assert p[..0] == [];
    } else {
      AugmentPrefixFeasible(es, p, s, t, b, k - 1);
      AugmentPrefixStep(es, p, s, t, b, k);
    }
  }

  /** The inductive step: crediting edge k-1 after the first k-1 keeps both facts. */
  lemma AugmentPrefixStep(es: seq<EdgeState>, p: seq<EdgeState>, s: int, t: int, b: int, k: nat)
    requires Feasible(es) && UniquePairs(es)
    requires IsPath(Residual(es), p, s, t) && Simple(p, s)
    requires 0 <= b && forall m :: 0 <= m < |p| ==> b <= ResidualCapacity(p[m])
    requires 1 <= k <= |p|
    requires Feasible(Augment(es, p[..k - 1], b))
    requires forall j :: k - 1 <= j < |p| ==>
      Augment(es, p[..k - 1], b)[Origin(es, p[j])].flow == es[Origin(es, p[j])].flow
    ensures Feasible(Augment(es, p[..k], b))
    ensures forall j :: k <= j < |p| ==>
      Augment(es, p[..k], b)[Origin(es, p[j])].flow == es[Origin(es, p[j])].flow
  {
    var prev := Augment(es, p[..k - 1], b);
    var r := p[k - 1];
    assert p[..k][..k - 1] == p[..k - 1];
    assert Augment(es, p[..k], b) == Credit(prev, r.from, r.to, b);
    SimpleHasNoLoop(p, s, k - 1);
    CreditFeasible(es, prev, r, b);
    forall j | k <= j < |p|
      ensures Augment(es, p[..k], b)[Origin(es, p[j])].flow == es[Origin(es, p[j])].flow
    {
      DistinctOrigins(es, p, s, j, k - 1);
    }
  }

  /** Augmenting along a simple path of the residual network by at most its
      smallest residual capacity keeps every flow between zero and capacity,
      provided no two base edges join the same two vertices. */
  lemma AugmentFeasible(es: seq<EdgeState>, p: seq<EdgeState>, s: int, t: int, b: int)
    requires Feasible(es) && UniquePairs(es)
    requires IsPath(Residual(es), p, s, t) && Simple(p, s)
    requires 0 <= b && forall m :: 0 <= m < |p| ==> b <= ResidualCapacity(p[m])
    ensures Feasible(Augment(es, p, b))
  {
    AugmentPrefixFeasible(es, p, s, t, b, |p|);
    assert p[..|p|] == p;
  }

  /** Why AugmentFeasible needs UniquePairs: with the antiparallel edges
      0 -> 1 and 1 -> 0 both full, the residual edge 0 -> 1 is the reverse of
      1 -> 0, yet the endpoint search credits the base edge 0 -> 1, whose
      flow then exceeds its capacity; 1 -> 0 keeps its flow. */
  lemma AntiparallelOverflow()
    ensures var es := [EdgeState(0, 1, 1, 1), EdgeState(1, 0, 1, 1)];
      var p := [EdgeState(0, 1, 1, 0)];
      Feasible(es) && IsPath(Residual(es), p, 0, 1) && Simple(p, 0) && ResidualCapacity(p[0]) == 1 &&
      Augment(es, p, 1) == [EdgeState(0, 1, 1, 2), EdgeState(1, 0, 1, 1)] && !Feasible(Augment(es, p, 1))
  {
    var es := [EdgeState(0, 1, 1, 1), EdgeState(1, 0, 1, 1)];
    var p := [EdgeState(0, 1, 1, 0)];
    assert es[..1] == [es[0]] && es[..1][..0] == [];
    assert Residual(es) == [EdgeState(1, 0, 1, 0), EdgeState(0, 1, 1, 0)];
    assert p[..0] == [];
    assert Augment(es, p, 1) == Credit(es, 0, 1, 1);
    assert FindArc(es, 0, 1) == Some(0);
    assert Credit(es, 0, 1, 1) == AddFlow(es, 0, 1);
    assert AddFlow(es, 0, 1) == [EdgeState(0, 1, 1, 2), EdgeState(1, 0, 1, 1)];
    assert Simple(p, 0) by {
      assert VertexAt(p, 0, 0) == 0 && VertexAt(p, 0, 1) == 1;
    }
  }
}
