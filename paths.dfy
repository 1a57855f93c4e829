/** Augmenting paths over a list of edges: walks through edges with positive
    residual capacity, reachability, and simple paths. */
module Paths {
  import opened Flows

  /** Consecutive edges of p meet: each ends where the next one starts. */
  predicate Linked(p: seq<EdgeState>)
  {
    forall k :: 0 <= k < |p| - 1 ==> p[k].to == p[k + 1].from
  }

  /** p walks from s to t through edges of es, each with positive residual
      capacity. The empty walk goes from s to s. */
  predicate IsPath(es: seq<EdgeState>, p: seq<EdgeState>, s: int, t: int)
  {
    (forall k :: 0 <= k < |p| ==> p[k] in es && ResidualCapacity(p[k]) > 0) &&
    Linked(p) &&
    (if p == [] then s == t else p[0].from == s && p[|p| - 1].to == t)
  }

  /** Some walk through edges of es with positive residual capacity leads from s to t. */
  ghost predicate Reachable(es: seq<EdgeState>, s: int, t: int)
  {
    exists p :: IsPath(es, p, s, t)
  }

  /** The k-th vertex visited by a walk that starts at s. */
  function VertexAt(p: seq<EdgeState>, s: int, k: nat): int
    requires k <= |p|
  {
    if k == 0 then s else p[k - 1].to
  }

  /** A walk from s that never visits a vertex twice. */
  ghost predicate Simple(p: seq<EdgeState>, s: int)
  {
    forall i, j :: 0 <= i < j <= |p| ==> VertexAt(p, s, i) != VertexAt(p, s, j)
  }

  /** Any walk from a vertex of a set that no positive edge leaves stays in the set. */
  lemma {:induction false} ClosedSetHoldsWalks(es: seq<EdgeState>, c: set<int>, p: seq<EdgeState>, s: int, t: int)
    requires s in c
    requires forall e :: e in es && ResidualCapacity(e) > 0 && e.from in c ==> e.to in c
    requires IsPath(es, p, s, t)
    ensures t in c
  {
    if p != [] {
      assert p[0] in es && ResidualCapacity(p[0]) > 0;
      var q := p[1..];
      assert IsPath(es, q, p[0].to, t) by {
        forall k | 0 <= k < |q| - 1 ensures q[k].to == q[k + 1].from {
          assert q[k] == p[k + 1] && q[k + 1] == p[k + 2];
        }
      }
      ClosedSetHoldsWalks(es, c, q, p[0].to, t);
    }
  }

  /** So a vertex outside such a set is not reachable from inside it. */
  lemma ClosedSetBlocksReach(es: seq<EdgeState>, c: set<int>, s: int, t: int)
    requires s in c && t !in c
    requires forall e :: e in es && ResidualCapacity(e) > 0 && e.from in c ==> e.to in c
    ensures !Reachable(es, s, t)
  {
    if p :| IsPath(es, p, s, t) {
      ClosedSetHoldsWalks(es, c, p, s, t);
    }
  }

  /** In a linked walk from s, each edge starts at the vertex the walk is at. */
  lemma StartsAtVertex(p: seq<EdgeState>, s: int, k: nat)
    requires Linked(p) && (p != [] ==> p[0].from == s) && k < |p|
    ensures p[k].from == VertexAt(p, s, k) && p[k].to == VertexAt(p, s, k + 1)
  {
  }

  /** If a rank strictly grows along every edge of a linked walk, the walk
      visits vertices of strictly growing rank. */
  lemma {:induction false} RankGrowsAlongWalk(p: seq<EdgeState>, s: int, rank: map<int, int>, i: nat, j: nat)
    requires Linked(p) && (p != [] ==> p[0].from == s)
    requires forall k :: 0 <= k < |p| ==>
      p[k].from in rank && p[k].to in rank && rank[p[k].from] < rank[p[k].to]
    requires i < j <= |p|
    ensures VertexAt(p, s, i) in rank && VertexAt(p, s, j) in rank
    ensures rank[VertexAt(p, s, i)] < rank[VertexAt(p, s, j)]
    decreases j - i
  {
    StartsAtVertex(p, s, j - 1);
    if i < j - 1 {
      RankGrowsAlongWalk(p, s, rank, i, j - 1);
    }
  }

  /** Such a walk is simple. */
  lemma RankedWalkIsSimple(p: seq<EdgeState>, s: int, rank: map<int, int>)
    requires Linked(p) && (p != [] ==> p[0].from == s)
    requires forall k :: 0 <= k < |p| ==>
      p[k].from in rank && p[k].to in rank && rank[p[k].from] < rank[p[k].to]
    ensures Simple(p, s)
  {
    forall i, j | 0 <= i < j <= |p| ensures VertexAt(p, s, i) != VertexAt(p, s, j) {
      RankGrowsAlongWalk(p, s, rank, i, j);
    }
  }

  /** No edge of a simple walk is a self-loop. */
  lemma SimpleHasNoLoop(p: seq<EdgeState>, s: int, j: nat)
    requires Linked(p) && (p != [] ==> p[0].from == s) && Simple(p, s)
    requires j < |p|
    ensures p[j].from != p[j].to
  {
    StartsAtVertex(p, s, j);
  }

  /** Distinct edges of a simple walk join distinct pairs of vertices. */
  lemma SimpleEdgesDistinctPairs(p: seq<EdgeState>, s: int, j: nat, k: nat)
    requires Linked(p) && (p != [] ==> p[0].from == s) && Simple(p, s)
    requires j < |p| && k < |p| && j != k
    ensures !SamePair(p[j], p[k])
  {
    StartsAtVertex(p, s, j);
    StartsAtVertex(p, s, k);
  }
}
