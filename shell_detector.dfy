/**
 Shell detection: a breadth-first search over the face-adjacency graph that
 groups the faces of a mesh into connected shells, and the face naming that
 turns those groups into component references of the mesh object.
 */
module ShellDetector {
  import opened MeshGraph
  import opened ShellSpec
  import opened FaceNames

  /** A set of face ids below `n` has at most `n` members. */
  lemma {:induction false} BoundedCard(visited: set<int>, n: nat)
    requires forall x :: x in visited ==> 0 <= x < n
    ensures |visited| <= n
  {
    if n > 0 {
      var rest := visited - {n - 1};
      BoundedCard(rest, n - 1);
    } else {
      assert forall x :: x !in visited;
      assert visited == {};
    }
  }

  /**
   Visits face ids in ascending order; each face not yet visited opens a new
   shell, which `GrowShell` fills breadth first. The result partitions the
   faces: see `IsShellDecomposition`.
   */
  method DetectShells(faceCount: nat, adj: Adjacency) returns (shells: seq<seq<int>>)
    requires NeighboursInRange(faceCount, adj)
    ensures IsShellDecomposition(faceCount, adj, shells)
  {
    var visited: set<int> := {};
    shells := [];
    for i := 0 to faceCount
      invariant WellFormed(faceCount, adj, shells)
      invariant forall x :: x in visited <==> x in Flatten(shells)
      invariant forall f :: 0 <= f < i ==> f in Flatten(shells)
    {
      if i in visited {
        continue;
      }
      ghost var before := visited;
      var shell;
      shell, visited := GrowShell(faceCount, adj, visited, i);
      forall x | x in shell
        ensures Reachable(adj, i, x)
      {
        ReachableAvoidingReachable(adj, i, x, before);
      }
      DistinctConcat(Flatten(shells), shell);
      AppendShell(faceCount, adj, shells, shell, i);
      shells := shells + [shell];
    }
  }

  /**
   One shell: a FIFO queue seeded with `i`; each face taken from the front
   that is not yet visited is marked visited, appended to the shell, and has
   its unvisited neighbours appended to the queue. The shell holds `i` first,
   only faces reachable from `i` that were not visited before, each once, and
   on return every neighbour of its faces is visited.
   */
  method GrowShell(faceCount: nat, adj: Adjacency, visited: set<int>, i: int)
    returns (shell: seq<int>, visited': set<int>)
    requires NeighboursInRange(faceCount, adj)
    requires forall x :: x in visited ==> 0 <= x < faceCount
    requires 0 <= i < faceCount && i !in visited
    ensures shell != [] && shell[0] == i
    ensures Distinct(shell)
    ensures forall x :: x in shell ==> x !in visited
    ensures forall x :: x in visited' <==> x in visited || x in shell
    ensures forall x :: x in visited' ==> 0 <= x < faceCount
    ensures forall x :: x in shell <==> ReachableAvoiding(adj, i, x, visited)
    ensures forall x, y :: x in shell && y in Neighbours(adj, x) ==> y in visited'
  {
    visited' := visited;
    shell := [];
    var queue: seq<int> := [i];
    ReachableAvoidingRefl(adj, i, visited);
    while queue != []
      invariant forall x :: x in visited' <==> x in visited || x in shell
      invariant Distinct(shell)
      invariant forall x :: x in shell ==> x !in visited
      invariant forall x :: x in visited' ==> 0 <= x < faceCount
      invariant forall q :: q in queue ==> 0 <= q < faceCount
      invariant (shell == [] && queue == [i]) || (shell != [] && shell[0] == i)
      invariant forall x :: x in shell ==> ReachableAvoiding(adj, i, x, visited)
      invariant forall q :: q in queue ==> ReachableAvoiding(adj, i, q, visited)
      invariant forall x, y :: x in shell && y in Neighbours(adj, x) ==> y in visited' || y in queue
      decreases faceCount - |visited'|, |queue|
    {
      var current := queue[0];
      assert current in queue;
      assert forall q :: q in queue ==> q == current || q in queue[1..];
      assert forall q :: q in queue[1..] ==> q in queue;
      queue := queue[1..];
      if current in visited' {
        continue;
      }
      DistinctAppend(shell, current);
      visited' := visited' + {current};
      BoundedCard(visited', faceCount);
      shell := shell + [current];
      var neighbours := Neighbours(adj, current);
      ghost var queueBefore := queue;
      queue := EnqueueUnvisited(queue, neighbours, visited');
      forall q | q in queue
        ensures 0 <= q < faceCount && ReachableAvoiding(adj, i, q, visited)
      {
        UnvisitedMember(neighbours, visited', q);
        if q !in queueBefore {
          ReachableAvoidingStep(adj, i, current, q, visited);
        }
      }
      forall n | n in neighbours
        ensures n in visited' || n in queue
      {
        UnvisitedMember(neighbours, visited', n);
      }
    }
    forall x | ReachableAvoiding(adj, i, x, visited)
      ensures x in shell
    {
      var p :| IsPath(adj, p) && p[0] == i && p[|p| - 1] == x && forall j :: 0 <= j < |p| ==> p[j] !in visited;
      AvoidingWalkStaysIn(adj, visited, shell, p);
    }
  }

  /** Neighbours not in `visited`, in their order in `ns`. */
  function Unvisited(ns: seq<int>, visited: set<int>): (r: seq<int>)
    ensures |r| <= |ns|
    ensures forall m :: 0 <= m < |r| ==> r[m] in ns && r[m] !in visited
  {
    if ns == [] then []
    else Unvisited(ns[..|ns| - 1], visited) + (if ns[|ns| - 1] in visited then [] else [ns[|ns| - 1]])
  }

  lemma {:induction false} UnvisitedMember(ns: seq<int>, visited: set<int>, n: int)
    ensures n in Unvisited(ns, visited) <==> n in ns && n !in visited
  {
    if ns != [] {
      var init := ns[..|ns| - 1];
      UnvisitedMember(init, visited, n);
      assert ns == init + [ns[|ns| - 1]];
    }
  }

  /** The loop over a face's neighbours: each one not yet visited joins the back of the queue. */
  method EnqueueUnvisited(queue: seq<int>, neighbours: seq<int>, visited: set<int>) returns (queue': seq<int>)
    ensures queue' == queue + Unvisited(neighbours, visited)
  {
    queue' := queue;
    for j := 0 to |neighbours|
      invariant queue' == queue + Unvisited(neighbours[..j], visited)
    {
      assert neighbours[..j + 1][..j] == neighbours[..j];
      var n := neighbours[j];
      if n !in visited {
        queue' := queue' + [n];
      }
    }
    assert neighbours[..|neighbours|] == neighbours;
  }

  /**
   The face groups of a mesh as component references `<obj>.f[<id>]`, one
   list per shell, in the order the search found them.
   */
  method GetMeshShells(objName: string, faceCount: nat, adj: Adjacency) returns (result: seq<seq<string>>)
    requires NeighboursInRange(faceCount, adj)
    ensures exists shells :: IsShellDecomposition(faceCount, adj, shells) && result == FormatShells(objName, shells)
  {
    var shells := DetectShells(faceCount, adj);
    result := FormatShells(objName, shells);
  }
}
