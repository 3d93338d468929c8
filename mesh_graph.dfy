/**
 The face-adjacency graph of a polygonal mesh: which faces share an edge,
 walks along shared edges, and reachability.
 */
module MeshGraph {

  /** Face id -> ids of the faces the host reports as sharing an edge with it. */
  type Adjacency = map<int, seq<int>>

  /** The neighbour list of face `f`; a face without an entry has no neighbours. */
  function Neighbours(adj: Adjacency, f: int): (r: seq<int>)
    ensures f in adj ==> r == adj[f]
    ensures f !in adj ==> r == []
  {
    if f in adj then adj[f] else []
  }

  /** Every neighbour named by a face `0 .. faceCount - 1` is itself such a face. */
  ghost predicate NeighboursInRange(faceCount: nat, adj: Adjacency)
  {
    forall f, n :: 0 <= f < faceCount && n in Neighbours(adj, f) ==> 0 <= n < faceCount
  }

  /** Sharing an edge is mutual. */
  ghost predicate Symmetric(adj: Adjacency)
  {
    forall a, b :: b in Neighbours(adj, a) ==> a in Neighbours(adj, b)
  }

  /** `p` is a non-empty walk in which each face is a neighbour of the one before. */
  ghost predicate IsPath(adj: Adjacency, p: seq<int>)
  {
    |p| > 0 && forall j :: 0 < j < |p| ==> p[j] in Neighbours(adj, p[j - 1])
  }

  lemma PathSecond(adj: Adjacency, p: seq<int>)
    requires IsPath(adj, p)
    ensures |p| > 1 ==> p[1] in Neighbours(adj, p[0])
  {
  }

  /** Some walk leads from face `a` to face `b`. */
  ghost predicate Reachable(adj: Adjacency, a: int, b: int)
  {
    exists p :: IsPath(adj, p) && p[0] == a && p[|p| - 1] == b
  }

  lemma ReachableRefl(adj: Adjacency, a: int)
    ensures Reachable(adj, a, a)
  {
    assert IsPath(adj, [a]);
  }

  /** A walk to `b` extends by one edge to any neighbour of `b`. */
  lemma ReachableStep(adj: Adjacency, a: int, b: int, c: int)
    requires Reachable(adj, a, b)
    requires c in Neighbours(adj, b)
    ensures Reachable(adj, a, c)
  {
    var p :| IsPath(adj, p) && p[0] == a && p[|p| - 1] == b;
    var q := p + [c];
    assert IsPath(adj, q);
    assert q[0] == a && q[|q| - 1] == c;
  }

  lemma ReachableTrans(adj: Adjacency, a: int, b: int, c: int)
    requires Reachable(adj, a, b) && Reachable(adj, b, c)
    ensures Reachable(adj, a, c)
  {
    var p :| IsPath(adj, p) && p[0] == a && p[|p| - 1] == b;
    var q :| IsPath(adj, q) && q[0] == b && q[|q| - 1] == c;
    var r := p + q[1..];
    forall j | 0 < j < |r|
      ensures r[j] in Neighbours(adj, r[j - 1])
    {
      if j >= |p| {
        var m := j - |p| + 1;
        assert r[j] == q[m] && r[j - 1] == q[m - 1];
      }
    }
    assert IsPath(adj, r);
    assert r[|r| - 1] == c;
  }

  /** Under a mutual adjacency relation, a walk can be retraced backwards. */
  lemma ReachableSymmetric(adj: Adjacency, a: int, b: int)
    requires Symmetric(adj)
    requires Reachable(adj, a, b)
    ensures Reachable(adj, b, a)
  {
    var p :| IsPath(adj, p) && p[0] == a && p[|p| - 1] == b;
    var n := |p|;
    var r := seq(n, j requires 0 <= j < n => p[n - 1 - j]);
    forall j | 0 < j < n
      ensures r[j] in Neighbours(adj, r[j - 1])
    {
      var m := n - j;
      assert p[m] in Neighbours(adj, p[m - 1]);
      assert r[j] == p[m - 1] && r[j - 1] == p[m];
    }
    assert IsPath(adj, r);
    assert r[0] == b && r[n - 1] == a;
  }

  /** Some walk leads from `a` to `b` without touching a face of `avoid`. */
  ghost predicate ReachableAvoiding(adj: Adjacency, a: int, b: int, avoid: set<int>)
  {
    exists p :: IsPath(adj, p) && p[0] == a && p[|p| - 1] == b && forall j :: 0 <= j < |p| ==> p[j] !in avoid
  }

  lemma ReachableAvoidingRefl(adj: Adjacency, a: int, avoid: set<int>)
    requires a !in avoid
    ensures ReachableAvoiding(adj, a, a, avoid)
  {
    assert IsPath(adj, [a]);
  }

  /** An avoiding walk to `b` extends to a neighbour of `b` outside `avoid`. */
  lemma ReachableAvoidingStep(adj: Adjacency, a: int, b: int, c: int, avoid: set<int>)
    requires ReachableAvoiding(adj, a, b, avoid)
    requires c in Neighbours(adj, b) && c !in avoid
    ensures ReachableAvoiding(adj, a, c, avoid)
  {
    var p :| IsPath(adj, p) && p[0] == a && p[|p| - 1] == b && forall j :: 0 <= j < |p| ==> p[j] !in avoid;
    var q := p + [c];
    assert IsPath(adj, q);
    assert q[0] == a && q[|q| - 1] == c;
    assert forall j :: 0 <= j < |q| ==> q[j] !in avoid;
  }

  lemma ReachableAvoidingReachable(adj: Adjacency, a: int, b: int, avoid: set<int>)
    requires ReachableAvoiding(adj, a, b, avoid)
    ensures Reachable(adj, a, b)
  {
    var p :| IsPath(adj, p) && p[0] == a && p[|p| - 1] == b && forall j :: 0 <= j < |p| ==> p[j] !in avoid;
  }

  /**
   A set closed under taking neighbours outside `avoid` holds the end of every
   walk that starts in it and stays outside `avoid`.
   */
  lemma {:induction false} AvoidingWalkStaysIn(adj: Adjacency, avoid: set<int>, s: seq<int>, p: seq<int>)
    requires IsPath(adj, p) && p[0] in s
    requires forall j :: 0 <= j < |p| ==> p[j] !in avoid
    requires forall x, y :: x in s && y in Neighbours(adj, x) ==> y in avoid || y in s
    ensures p[|p| - 1] in s
  {
    if |p| > 1 {
      var init := p[..|p| - 1];
      assert IsPath(adj, init);
      AvoidingWalkStaysIn(adj, avoid, s, init);
      assert p[|p| - 1] in Neighbours(adj, init[|init| - 1]);
    }
  }
}
