/**
 * The cluster of a node: every beam that can be reached from it by walking
 * node -> incident beam -> that beam's recorded endpoints -> ...  This is the
 * specification the breadth-first search in the bridge graph is proved
 * against; it is stated on the two adjacency tables only, so it holds for
 * any contents of those tables, well formed or not.
 */
module Reachability {
  import opened Graph

  /** One step of a walk: `m` is an endpoint of a beam listed under `n`. */
  ghost predicate Adjacent(beamToNodes: map<BeamId, Ends>, nodeToBeams: map<NodeId, set<BeamId>>, n: NodeId, m: NodeId)
  {
    n in nodeToBeams &&
    exists beam :: beam in nodeToBeams[n] && beam in beamToNodes && IsEnd(beamToNodes[beam], m)
  }

  ghost predicate IsWalk(beamToNodes: map<BeamId, Ends>, nodeToBeams: map<NodeId, set<BeamId>>, p: seq<NodeId>)
  {
    forall i :: 0 <= i < |p| - 1 ==> Adjacent(beamToNodes, nodeToBeams, p[i], p[i + 1])
  }

  /** `n` is reachable from `start` by a walk (possibly of length zero). */
  ghost predicate Reaches(beamToNodes: map<BeamId, Ends>, nodeToBeams: map<NodeId, set<BeamId>>, start: NodeId, n: NodeId)
  {
    exists p :: IsWalk(beamToNodes, nodeToBeams, p) && |p| > 0 && p[0] == start && p[|p| - 1] == n
  }

  /** Every beam incident to a node reachable from `start`. */
  ghost function Cluster(beamToNodes: map<BeamId, Ends>, nodeToBeams: map<NodeId, set<BeamId>>, start: NodeId): set<BeamId>
  {
    set n, beam | n in nodeToBeams && beam in nodeToBeams[n] && Reaches(beamToNodes, nodeToBeams, start, n) :: beam
  }

  /** Every node a walk can end at: the start and every recorded endpoint. */
  function EndNodes(beamToNodes: map<BeamId, Ends>): (s: set<NodeId>)
    ensures forall beam :: beam in beamToNodes ==> beamToNodes[beam].a in s && beamToNodes[beam].b in s
  {
    (set beam | beam in beamToNodes :: beamToNodes[beam].a) + (set beam | beam in beamToNodes :: beamToNodes[beam].b)
  }

  lemma StartReaches(beamToNodes: map<BeamId, Ends>, nodeToBeams: map<NodeId, set<BeamId>>, start: NodeId)
    ensures Reaches(beamToNodes, nodeToBeams, start, start)
  {
    assert IsWalk(beamToNodes, nodeToBeams, [start]);
  }

  /** A walk to `n` extends by one step to every node adjacent to `n`. */
  lemma ReachesStep(beamToNodes: map<BeamId, Ends>, nodeToBeams: map<NodeId, set<BeamId>>, start: NodeId, n: NodeId, m: NodeId)
    requires Reaches(beamToNodes, nodeToBeams, start, n)
    requires Adjacent(beamToNodes, nodeToBeams, n, m)
    ensures Reaches(beamToNodes, nodeToBeams, start, m)
  {
    var p :| IsWalk(beamToNodes, nodeToBeams, p) && |p| > 0 && p[0] == start && p[|p| - 1] == n;
    var q := p + [m];
    assert IsWalk(beamToNodes, nodeToBeams, q) by {
      forall i | 0 <= i < |q| - 1
        ensures Adjacent(beamToNodes, nodeToBeams, q[i], q[i + 1])
      {
        if i < |p| - 1 {
          assert q[i] == p[i] && q[i + 1] == p[i + 1];
        }
      }
    }
  }

  /** A beam listed under a reachable node belongs to the cluster. */
  lemma InCluster(beamToNodes: map<BeamId, Ends>, nodeToBeams: map<NodeId, set<BeamId>>, start: NodeId, n: NodeId, beam: BeamId)
    requires Reaches(beamToNodes, nodeToBeams, start, n)
    requires n in nodeToBeams && beam in nodeToBeams[n]
    ensures beam in Cluster(beamToNodes, nodeToBeams, start)
  {
  }

  /** In particular every beam listed under the start node itself. */
  lemma IncidentInCluster(beamToNodes: map<BeamId, Ends>, nodeToBeams: map<NodeId, set<BeamId>>, start: NodeId, beam: BeamId)
    requires start in nodeToBeams && beam in nodeToBeams[start]
    ensures beam in Cluster(beamToNodes, nodeToBeams, start)
  {
    StartReaches(beamToNodes, nodeToBeams, start);
    InCluster(beamToNodes, nodeToBeams, start, start, beam);
  }

  /** A node with no incident-set entry has an empty cluster. */
  lemma IsolatedClusterEmpty(beamToNodes: map<BeamId, Ends>, nodeToBeams: map<NodeId, set<BeamId>>, start: NodeId)
    requires start !in nodeToBeams
    ensures Cluster(beamToNodes, nodeToBeams, start) == {}
  {
    forall n | Reaches(beamToNodes, nodeToBeams, start, n)
      ensures n == start
    {
      var p :| IsWalk(beamToNodes, nodeToBeams, p) && |p| > 0 && p[0] == start && p[|p| - 1] == n;
      assert |p| > 1 ==> Adjacent(beamToNodes, nodeToBeams, p[0], p[1]);
    }
  }

  /** A walk that starts inside a set of nodes closed under adjacency stays inside it. */
  lemma {:induction false} WalkStaysInside(beamToNodes: map<BeamId, Ends>, nodeToBeams: map<NodeId, set<BeamId>>,
                                          nodes: set<NodeId>, beams: set<BeamId>, p: seq<NodeId>)
    requires IsWalk(beamToNodes, nodeToBeams, p) && |p| > 0 && p[0] in nodes
    requires forall n :: n in nodes && n in nodeToBeams ==> nodeToBeams[n] <= beams
    requires forall beam :: beam in beams && beam in beamToNodes ==>
               beamToNodes[beam].a in nodes && beamToNodes[beam].b in nodes
    ensures p[|p| - 1] in nodes
  {
    if |p| > 1 {
      var q := p[..|p| - 1];
      assert IsWalk(beamToNodes, nodeToBeams, q) by {
        forall i | 0 <= i < |q| - 1
          ensures Adjacent(beamToNodes, nodeToBeams, q[i], q[i + 1])
        {
          assert q[i] == p[i] && q[i + 1] == p[i + 1];
        }
      }
      WalkStaysInside(beamToNodes, nodeToBeams, nodes, beams, q);
      assert Adjacent(beamToNodes, nodeToBeams, p[|p| - 2], p[|p| - 1]);
    }
  }

  /**
   * A set of beams that is closed under the walk (together with a set of
   * nodes holding the start) contains the whole cluster.
   */
  lemma ClosedContainsCluster(beamToNodes: map<BeamId, Ends>, nodeToBeams: map<NodeId, set<BeamId>>, start: NodeId,
                              nodes: set<NodeId>, beams: set<BeamId>)
    requires start in nodes
    requires forall n :: n in nodes && n in nodeToBeams ==> nodeToBeams[n] <= beams
    requires forall beam :: beam in beams && beam in beamToNodes ==>
               beamToNodes[beam].a in nodes && beamToNodes[beam].b in nodes
    ensures Cluster(beamToNodes, nodeToBeams, start) <= beams
  {
    forall beam | beam in Cluster(beamToNodes, nodeToBeams, start)
      ensures beam in beams
    {
      var n :| n in nodeToBeams && beam in nodeToBeams[n] && Reaches(beamToNodes, nodeToBeams, start, n);
      var p :| IsWalk(beamToNodes, nodeToBeams, p) && |p| > 0 && p[0] == start && p[|p| - 1] == n;
      WalkStaysInside(beamToNodes, nodeToBeams, nodes, beams, p);
    }
  }
}
