/**
 * The bridge graph as the program runs it: a registry object whose tables
 * are updated in place by RegisterBeam, UnregisterBeam, MarkNodeSupported and
 * UnmarkNodeSupported, and a scene object standing for the hinge joints those
 * operations reach into.  Every operation is proved to leave the registry and
 * the scene in the state the Support module's functions prescribe.
 */
module Bridge {
  import opened Graph
  import opened Reachability
  import opened Support

  /** What the registry asks of a beam's hinge joints besides new thresholds. */
  datatype Command =
    | LockHinges(beam: BeamId)    // limits off, both limits 0
    | UnlockHinges(beam: BeamId)  // limits on, range -1 .. +1

  /**
   * The hinge joints of the scene: the thresholds of every beam that still
   * exists (a beam id that is not a key does not resolve to a live object)
   * and the lock/unlock commands received so far.
   */
  class Scene {
    var hinges: map<BeamId, Thresholds>
    var commands: seq<Command>

    constructor (hinges: map<BeamId, Thresholds>)
      ensures this.hinges == hinges && commands == []
    {
      this.hinges := hinges;
      commands := [];
    }
  }

  /** `after` is `before` followed by one lock command for each beam of `beams`, in some order. */
  ghost predicate LocksIssued(before: seq<Command>, after: seq<Command>, beams: set<BeamId>)
  {
    && |after| == |before| + |beams|
    && after[..|before|] == before
    && (forall i :: |before| <= i < |after| ==> after[i].LockHinges? && after[i].beam in beams)
    && (forall beam :: beam in beams ==> LockHinges(beam) in after[|before|..])
  }

  /**
   * `after` is `before` followed by one lock command for each beam of
   * `first`, then one for each beam of `second`.
   */
  ghost predicate LocksIssuedInTurn(before: seq<Command>, after: seq<Command>, first: set<BeamId>, second: set<BeamId>)
  {
    && |before| + |first| <= |after|
    && LocksIssued(before, after[..|before| + |first|], first)
    && LocksIssued(after[..|before| + |first|], after, second)
  }

  /** Two rounds of locks, one after the other. */
  lemma LocksInTurn(a: seq<Command>, b: seq<Command>, c: seq<Command>, first: set<BeamId>, second: set<BeamId>)
    requires LocksIssued(a, b, first) && LocksIssued(b, c, second)
    ensures LocksIssuedInTurn(a, c, first, second)
  {
    assert c[..|b|] == b;
  }

  /** The ids held by a sequence of node or beam ids. */
  function Elems(q: seq<int>): set<int>
  {
    set x | x in q
  }

  /** No id occurs twice in `q`. */
  predicate NoDuplicates(q: seq<int>)
  {
    forall i, j :: 0 <= i < j < |q| ==> q[i] != q[j]
  }

  lemma ElemsSplit(q: seq<int>)
    requires |q| > 0
    ensures Elems(q) == {q[0]} + Elems(q[1..])
  {
  }

  lemma ElemsAppend(q: seq<int>, x: int)
    ensures Elems(q + [x]) == Elems(q) + {x}
    ensures NoDuplicates(q) && x !in Elems(q) ==> NoDuplicates(q + [x])
  {
  }

  /** Appending a new member to a duplicate-free enumeration keeps it duplicate free. */
  lemma EnumerationStep(order: seq<BeamId>, beams: set<BeamId>, beam: BeamId)
    requires Elems(order) == beams && |order| == |beams| && beam !in beams
    ensures Elems(order + [beam]) == beams + {beam} && |order + [beam]| == |beams + {beam}|
  {
    ElemsAppend(order, beam);
  }

  /** One lock command per beam of `order`, in that order. */
  function Locks(order: seq<BeamId>): seq<Command>
  {
    if order == [] then [] else Locks(order[..|order| - 1]) + [LockHinges(order[|order| - 1])]
  }

  lemma {:induction false} LocksAt(order: seq<BeamId>)
    ensures |Locks(order)| == |order|
    ensures forall i :: 0 <= i < |order| ==> Locks(order)[i] == LockHinges(order[i])
  {
    if order != [] {
      LocksAt(order[..|order| - 1]);
    }
  }

  /** Locking one more beam appends its lock command to the log. */
  lemma LocksAppend(before: seq<Command>, order: seq<BeamId>, beam: BeamId)
    ensures before + Locks(order + [beam]) == (before + Locks(order)) + [LockHinges(beam)]
  {
    assert (order + [beam])[..|order|] == order;
  }

  /** Locking each beam of a duplicate-free enumeration of `beams` issues exactly the locks for `beams`. */
  lemma LocksIssuedByOrder(before: seq<Command>, order: seq<BeamId>, beams: set<BeamId>)
    requires Elems(order) == beams && |order| == |beams|
    ensures LocksIssued(before, before + Locks(order), beams)
  {
    var after := before + Locks(order);
    LocksAt(order);
    assert after[..|before|] == before;
    forall beam | beam in beams
      ensures LockHinges(beam) in after[|before|..]
    {
      var i :| 0 <= i < |order| && order[i] == beam;
      assert after[|before|..][i] == LockHinges(beam);
    }
  }

  /** Some member of a non-empty set: a hash set is enumerated in no promised order. */
  method Pick<T>(s: set<T>) returns (x: T)
    requires s != {}
    ensures x in s
  {
    x :| x in s;
  }

  /** Examining one more cluster beam adds it to the credited set exactly when it qualifies. */
  lemma CreditedStep(ledger: map<BeamId, set<NodeId>>, cluster: set<BeamId>, live: set<BeamId>, n: NodeId,
                     todo: set<BeamId>, beam: BeamId)
    requires beam in todo
    ensures Credited(ledger, cluster - (todo - {beam}), live, n) ==
      if beam in cluster && beam in ledger && beam in live && n !in ledger[beam]
      then Credited(ledger, cluster - todo, live, n) + {beam}
      else Credited(ledger, cluster - todo, live, n)
  {
  }

  /** Examining one more cluster beam adds it to the debited set exactly when it qualifies. */
  lemma DebitedStep(ledger: map<BeamId, set<NodeId>>, cluster: set<BeamId>, live: set<BeamId>, n: NodeId,
                    todo: set<BeamId>, beam: BeamId)
    requires beam in todo
    ensures Debited(ledger, cluster - (todo - {beam}), live, n) ==
      if beam in cluster && beam in ledger && beam in live && n in ledger[beam]
      then Debited(ledger, cluster - todo, live, n) + {beam}
      else Debited(ledger, cluster - todo, live, n)
  {
  }

  /** A beam not yet credited still has its original ledger entry and thresholds. */
  lemma Untouched(ledger: map<BeamId, set<NodeId>>, hinges: map<BeamId, Thresholds>, beams: set<BeamId>,
                  n: NodeId, k: int, beam: BeamId)
    requires beam !in beams
    ensures var l := WithSupport(ledger, beams, n);
      l.Keys == ledger.Keys && (beam in ledger ==> l[beam] == ledger[beam])
    ensures var l := WithoutSupport(ledger, beams, n);
      l.Keys == ledger.Keys && (beam in ledger ==> l[beam] == ledger[beam])
    ensures var h := Shift(hinges, beams, k);
      h.Keys == hinges.Keys && (beam in hinges ==> h[beam] == hinges[beam])
  {
  }

  /** Crediting one more beam updates its ledger entry and its thresholds only. */
  lemma CreditOne(ledger: map<BeamId, set<NodeId>>, hinges: map<BeamId, Thresholds>, beams: set<BeamId>,
                  n: NodeId, k: int, beam: BeamId)
    requires beam in ledger && beam in hinges
    ensures WithSupport(ledger, beams + {beam}, n) == WithSupport(ledger, beams, n)[beam := ledger[beam] + {n}]
    ensures WithoutSupport(ledger, beams + {beam}, n) == WithoutSupport(ledger, beams, n)[beam := ledger[beam] - {n}]
    ensures Shift(hinges, beams + {beam}, k) == Shift(hinges, beams, k)[beam := AddBonus(hinges[beam], k)]
  {
  }

  class BridgeGraph {
    var beamToNodes: map<BeamId, Ends>
    var nodeToBeams: map<NodeId, set<BeamId>>
    var supportedNodeIds: set<NodeId>
    var beamBonusApplied: map<BeamId, set<NodeId>>

    ghost function State(): Registry
      reads this
    {
      Registry(beamToNodes, nodeToBeams, supportedNodeIds, beamBonusApplied)
    }

    ghost function WorldWith(scene: Scene): World
      reads this, scene
    {
      World(State(), scene.hinges)
    }

    constructor ()
      ensures State() == EmptyRegistry
    {
      beamToNodes := map[];
      nodeToBeams := map[];
      supportedNodeIds := {};
      beamBonusApplied := map[];
    }

    /**
     * Records the beam's endpoints, lists it under both nodes, resets its
     * ledger and its hinge thresholds to the base values, then applies the
     * bonus of each endpoint that is already supported.
     */
    method RegisterBeam(beam: BeamId, nodeA: NodeId, nodeB: NodeId, scene: Scene)
      modifies this, scene
      ensures WorldWith(scene) == Register(old(WorldWith(scene)), beam, nodeA, nodeB)
      ensures var w1 := Linked(old(WorldWith(scene)), beam, nodeA, nodeB);
        var w2 := if nodeA in supportedNodeIds then ApplyFrom(w1, nodeA) else w1;
        LocksIssuedInTurn(old(scene.commands), scene.commands,
          if nodeA in supportedNodeIds then CreditedBy(w1, nodeA) else {},
          if nodeB in supportedNodeIds then CreditedBy(w2, nodeB) else {})
    {
      RecordBeam(beam, nodeA, nodeB, scene);
      ghost var w1, log1 := WorldWith(scene), scene.commands;
      PropagateIfSupported(nodeA, scene);
      ghost var w2, log2 := WorldWith(scene), scene.commands;
      PropagateIfSupported(nodeB, scene);
      LocksInTurn(log1, log2, scene.commands,
        if nodeA in supportedNodeIds then CreditedBy(w1, nodeA) else {},
        if nodeB in supportedNodeIds then CreditedBy(w2, nodeB) else {});
    }

    /** Applies the bonus of an endpoint of a newly registered beam if that endpoint is supported. */
    method PropagateIfSupported(node: NodeId, scene: Scene)
      modifies this`beamBonusApplied, scene
      ensures WorldWith(scene) ==
        if node in supportedNodeIds then ApplyFrom(old(WorldWith(scene)), node) else old(WorldWith(scene))
      ensures LocksIssued(old(scene.commands), scene.commands,
        if node in supportedNodeIds then CreditedBy(old(WorldWith(scene)), node) else {})
    {
      if node in supportedNodeIds {
        ApplySupportBonusFromNode(node, scene);
      } else {
        assert scene.commands[..|scene.commands|] == scene.commands;
      }
    }

    /** The bookkeeping half of RegisterBeam, before any bonus is propagated. */
    method RecordBeam(beam: BeamId, nodeA: NodeId, nodeB: NodeId, scene: Scene)
      modifies this`beamToNodes, this`nodeToBeams, this`beamBonusApplied, scene`hinges
      ensures WorldWith(scene) == Linked(old(WorldWith(scene)), beam, nodeA, nodeB)
    {
      beamToNodes := beamToNodes[beam := Ends(nodeA, nodeB)];

      var beamsAtA := if nodeA in nodeToBeams then nodeToBeams[nodeA] else {};
      nodeToBeams := nodeToBeams[nodeA := beamsAtA + {beam}];
      var beamsAtB := if nodeB in nodeToBeams then nodeToBeams[nodeB] else {};
      nodeToBeams := nodeToBeams[nodeB := beamsAtB + {beam}];

      beamBonusApplied := beamBonusApplied[beam := {}];

      // reset the thresholds of every hinge of the beam, if it is live
      if beam in scene.hinges {
        scene.hinges := scene.hinges[beam := Thresholds(BaseBreakForce, BaseBreakTorque)];
      }
    }

    /**
     * Forgets a known beam: it leaves both endpoint incident sets (a set
     * left empty is dropped) and loses its endpoint record and its ledger.
     * An unknown beam is ignored.
     */
    method UnregisterBeam(beam: BeamId)
      modifies this
      ensures State() == Unlink(old(State()), beam)
    {
      if beam !in beamToNodes {
        return;
      }
      var nodes := beamToNodes[beam];

      if nodes.a in nodeToBeams {
        var beamsAtA := nodeToBeams[nodes.a] - {beam};
        if |beamsAtA| == 0 {
          nodeToBeams := nodeToBeams - {nodes.a};
        } else {
          nodeToBeams := nodeToBeams[nodes.a := beamsAtA];
        }
      }
      if nodes.b in nodeToBeams {
        var beamsAtB := nodeToBeams[nodes.b] - {beam};
        if |beamsAtB| == 0 {
          nodeToBeams := nodeToBeams - {nodes.b};
        } else {
          nodeToBeams := nodeToBeams[nodes.b := beamsAtB];
        }
      }
      beamToNodes := beamToNodes - {beam};
      beamBonusApplied := beamBonusApplied - {beam};
    }

    /** Records a node as supported and, if it was not already, propagates its bonus. */
    method MarkNodeSupported(node: NodeId, scene: Scene)
      modifies this, scene
      ensures WorldWith(scene) == Mark(old(WorldWith(scene)), node)
      ensures if node in old(supportedNodeIds) then scene.commands == old(scene.commands)
              else LocksIssued(old(scene.commands), scene.commands, CreditedBy(old(WorldWith(scene)), node))
    {
      if node !in supportedNodeIds {
        supportedNodeIds := supportedNodeIds + {node};
        ApplySupportBonusFromNode(node, scene);
      }
    }

    /** Drops a node's support and, if it was supported, takes its bonus back. */
    method UnmarkNodeSupported(node: NodeId, scene: Scene)
      modifies this, scene
      ensures WorldWith(scene) == Unmark(old(WorldWith(scene)), node)
      ensures scene.commands == old(scene.commands)
    {
      if node in supportedNodeIds {
        supportedNodeIds := supportedNodeIds - {node};
        RemoveSupportBonusFromNode(node, scene);
      }
    }

    /** Every node a search from `start` can visit. */
    ghost function Universe(start: NodeId): set<NodeId>
      reads this
    {
      {start} + EndNodes(beamToNodes)
    }

    /**
     * What a partial search from `start` has established: every visited node
     * is reachable, every visited beam is in the cluster, and the endpoints of
     * every visited beam are visited.
     */
    ghost predicate Explored(start: NodeId, nodes: set<NodeId>, beams: set<BeamId>)
      reads this
    {
      && (forall m :: m in nodes ==> Reaches(beamToNodes, nodeToBeams, start, m))
      && beams <= Cluster(beamToNodes, nodeToBeams, start)
      && (forall beam :: beam in beams && beam in beamToNodes ==>
            beamToNodes[beam].a in nodes && beamToNodes[beam].b in nodes)
    }

    /** Every incident beam of every node in `done` has been visited. */
    ghost predicate Closed(done: set<NodeId>, beams: set<BeamId>)
      reads this
    {
      forall m :: m in done && m in nodeToBeams ==> nodeToBeams[m] <= beams
    }

    /**
     * The state of a search from `start` between two rounds: the visited
     * nodes are those already dequeued (`done`, in the order `dequeued`) and
     * those still queued; no node is queued twice or queued after it was
     * dequeued; and what has been found so far is explored and closed.
     */
    ghost predicate Searching(start: NodeId, nodes: set<NodeId>, beams: set<BeamId>, queue: seq<NodeId>,
                              done: set<NodeId>, dequeued: seq<NodeId>)
      reads this
    {
      && nodes == done + Elems(queue) && done !! Elems(queue)
      && NoDuplicates(queue) && NoDuplicates(dequeued) && Elems(dequeued) == done
      && (dequeued == [] ==> queue == [start])
      && (dequeued != [] ==> dequeued[0] == start)
      && start in nodes && nodes <= Universe(start)
      && Explored(start, nodes, beams) && Closed(done, beams)
    }

    /**
     * Breadth-first search from `start` over nodes and beams; each node is
     * dequeued at most once (`dequeued` lists them in order) and each beam is
     * visited at most once.  The visited beams are exactly the cluster of
     * `start`.
     */
    method CollectCluster(start: NodeId) returns (visitedBeams: set<BeamId>, ghost dequeued: seq<NodeId>)
      ensures visitedBeams == Cluster(beamToNodes, nodeToBeams, start)
      ensures |dequeued| > 0 && dequeued[0] == start && NoDuplicates(dequeued)
      ensures forall n :: n in dequeued ==> Reaches(beamToNodes, nodeToBeams, start, n)
    {
      var visitedNodes := {start};
      visitedBeams := {};
      var queue := [start];
      ghost var done: set<NodeId> := {};
      dequeued := [];
      StartReaches(beamToNodes, nodeToBeams, start);

      while |queue| > 0
        invariant Searching(start, visitedNodes, visitedBeams, queue, done, dequeued)
        decreases Universe(start) - visitedNodes, |queue|
      {
        visitedNodes, visitedBeams, queue, done, dequeued :=
          SearchRound(start, visitedNodes, visitedBeams, queue, done, dequeued);
      }
      ClosedContainsCluster(beamToNodes, nodeToBeams, start, visitedNodes, visitedBeams);
    }

    /** One round of the search: the node at the head of the queue is dequeued and its beams are visited. */
    method SearchRound(start: NodeId, nodes0: set<NodeId>, beams0: set<BeamId>, queue0: seq<NodeId>,
                       ghost done0: set<NodeId>, ghost dequeued0: seq<NodeId>)
      returns (nodes: set<NodeId>, beams: set<BeamId>, queue: seq<NodeId>, ghost done: set<NodeId>, ghost dequeued: seq<NodeId>)
      requires |queue0| > 0 && Searching(start, nodes0, beams0, queue0, done0, dequeued0)
      ensures Searching(start, nodes, beams, queue, done, dequeued)
      ensures dequeued == dequeued0 + [queue0[0]]
      ensures nodes0 <= nodes && (nodes == nodes0 ==> |queue| < |queue0|)
    {
      var nodeId := queue0[0];
      ElemsSplit(queue0);
      nodes, beams, queue := nodes0, beams0, queue0[1..];
      if nodeId in nodeToBeams {
        nodes, beams, queue := VisitIncidentBeams(start, nodeId, nodes, beams, queue, done0);
      }
      ElemsAppend(dequeued0, nodeId);
      done := done0 + {nodeId};
      dequeued := dequeued0 + [nodeId];
    }

    /**
     * One round of the search: every beam listed under `nodeId` is visited,
     * and each newly visited beam's endpoints not yet visited are marked
     * and queued.
     */
    method VisitIncidentBeams(start: NodeId, nodeId: NodeId, nodes0: set<NodeId>, beams0: set<BeamId>,
                              queue0: seq<NodeId>, ghost done: set<NodeId>)
      returns (nodes: set<NodeId>, beams: set<BeamId>, queue: seq<NodeId>)
      requires nodeId in nodeToBeams && nodeId in nodes0 && nodes0 <= Universe(start)
      requires Explored(start, nodes0, beams0) && Closed(done, beams0)
      requires Elems(queue0) <= nodes0 && NoDuplicates(queue0)
      ensures Explored(start, nodes, beams) && Closed(done + {nodeId}, beams)
      ensures nodes0 <= nodes <= Universe(start)
      ensures Elems(queue) == Elems(queue0) + (nodes - nodes0) && NoDuplicates(queue)
      ensures nodes == nodes0 ==> queue == queue0
    {
      nodes, beams, queue := nodes0, beams0, queue0;
      var todo := nodeToBeams[nodeId];
      while todo != {}
        invariant todo <= nodeToBeams[nodeId] && nodeToBeams[nodeId] - todo <= beams
        invariant nodes0 <= nodes <= Universe(start)
        invariant Elems(queue) == Elems(queue0) + (nodes - nodes0) && NoDuplicates(queue)
        invariant nodes == nodes0 ==> queue == queue0
        invariant Explored(start, nodes, beams) && Closed(done, beams)
        decreases todo
      {
        var beamId := Pick(todo);
        todo := todo - {beamId};
        if beamId !in beams {
          nodes, beams, queue := VisitBeam(start, nodeId, beamId, nodes, beams, queue);
        }
      }
    }

    /**
     * Visits one beam listed under `nodeId`: marks it, and marks and queues
     * each of its recorded endpoints that was not visited yet.
     */
    method VisitBeam(start: NodeId, nodeId: NodeId, beamId: BeamId, nodes0: set<NodeId>, beams0: set<BeamId>,
                     queue0: seq<NodeId>)
      returns (nodes: set<NodeId>, beams: set<BeamId>, queue: seq<NodeId>)
      requires nodeId in nodeToBeams && beamId in nodeToBeams[nodeId] && beamId !in beams0
      requires nodeId in nodes0 && nodes0 <= Universe(start)
      requires Explored(start, nodes0, beams0)
      requires Elems(queue0) <= nodes0 && NoDuplicates(queue0)
      ensures Explored(start, nodes, beams) && beams == beams0 + {beamId}
      ensures nodes0 <= nodes <= Universe(start)
      ensures Elems(queue) == Elems(queue0) + (nodes - nodes0) && NoDuplicates(queue)
      ensures nodes == nodes0 ==> queue == queue0
    {
      InCluster(beamToNodes, nodeToBeams, start, nodeId, beamId);
      nodes, beams, queue := nodes0, beams0 + {beamId}, queue0;
      if beamId in beamToNodes {
        var nodePair := beamToNodes[beamId];
        ReachesStep(beamToNodes, nodeToBeams, start, nodeId, nodePair.a);
        ReachesStep(beamToNodes, nodeToBeams, start, nodeId, nodePair.b);
        if nodePair.a !in nodes {
          ElemsAppend(queue, nodePair.a);
          nodes := nodes + {nodePair.a};
          queue := queue + [nodePair.a];
        }
        if nodePair.b !in nodes {
          ElemsAppend(queue, nodePair.b);
          nodes := nodes + {nodePair.b};
          queue := queue + [nodePair.b];
        }
      }
    }

    /**
     * Adds the node's bonus to every live beam of its cluster whose ledger
     * does not list the node yet, locks that beam's hinges and records the
     * node in its ledger.  A node without incident beams changes nothing.
     */
    method ApplySupportBonusFromNode(startNodeId: NodeId, scene: Scene)
      modifies this`beamBonusApplied, scene
      ensures WorldWith(scene) == ApplyFrom(old(WorldWith(scene)), startNodeId)
      ensures LocksIssued(old(scene.commands), scene.commands, CreditedBy(old(WorldWith(scene)), startNodeId))
    {
      if startNodeId !in nodeToBeams {
        IsolatedClusterEmpty(beamToNodes, nodeToBeams, startNodeId);
        assert CreditedBy(WorldWith(scene), startNodeId) == {};
        assert WithSupport(beamBonusApplied, {}, startNodeId) == beamBonusApplied;
        assert Shift(scene.hinges, {}, 1) == scene.hinges;
        return;
      }
      var visitedBeams, dequeued := CollectCluster(startNodeId);
      CreditBeams(startNodeId, visitedBeams, scene);
    }

    /**
     * The credit loop of ApplySupportBonusFromNode over the collected beams:
     * every beam with a ledger entry that does not list the node and that is
     * still live gains one bonus, a lock command and the node in its ledger.
     */
    method CreditBeams(startNodeId: NodeId, visitedBeams: set<BeamId>, scene: Scene)
      modifies this`beamBonusApplied, scene
      ensures var credited := Credited(old(beamBonusApplied), visitedBeams, old(scene.hinges).Keys, startNodeId);
        && beamBonusApplied == WithSupport(old(beamBonusApplied), credited, startNodeId)
        && scene.hinges == Shift(old(scene.hinges), credited, 1)
        && LocksIssued(old(scene.commands), scene.commands, credited)
    {
      ghost var ledger0, hinges0 := beamBonusApplied, scene.hinges;
      ghost var credited: set<BeamId> := {};
      ghost var order: seq<BeamId> := [];
      var todo := visitedBeams;
      while todo != {}
        invariant todo <= visitedBeams
        invariant credited == Credited(ledger0, visitedBeams - todo, hinges0.Keys, startNodeId)
        invariant beamBonusApplied == WithSupport(ledger0, credited, startNodeId)
        invariant scene.hinges == Shift(hinges0, credited, 1)
        invariant scene.commands == old(scene.commands) + Locks(order)
        invariant Elems(order) == credited && |order| == |credited|
        decreases todo
      {
        var beamId := Pick(todo);
        CreditedStep(ledger0, visitedBeams, hinges0.Keys, startNodeId, todo, beamId);
        Untouched(ledger0, hinges0, credited, startNodeId, 1, beamId);
        todo := todo - {beamId};
        ghost var hit := beamId in ledger0 && startNodeId !in ledger0[beamId] && beamId in hinges0;
        if hit {
          CreditOne(ledger0, hinges0, credited, startNodeId, 1, beamId);
          LocksAppend(old(scene.commands), order, beamId);
          EnumerationStep(order, credited, beamId);
        }
        CreditBeam(startNodeId, beamId, scene);
        if hit {
          credited := credited + {beamId};
          order := order + [beamId];
        }
      }
      assert visitedBeams - todo == visitedBeams;
      LocksIssuedByOrder(old(scene.commands), order, credited);
    }

    /**
     * Subtracts the node's bonus from every live beam of its cluster whose
     * ledger lists the node and takes the node out of that ledger.
     */
    method RemoveSupportBonusFromNode(startNodeId: NodeId, scene: Scene)
      modifies this`beamBonusApplied, scene
      ensures WorldWith(scene) == RemoveFrom(old(WorldWith(scene)), startNodeId)
      ensures scene.commands == old(scene.commands)
    {
      if startNodeId !in nodeToBeams {
        IsolatedClusterEmpty(beamToNodes, nodeToBeams, startNodeId);
        assert DebitedBy(WorldWith(scene), startNodeId) == {};
        assert WithoutSupport(beamBonusApplied, {}, startNodeId) == beamBonusApplied;
        assert Shift(scene.hinges, {}, -1) == scene.hinges;
        return;
      }
      var visitedBeams, dequeued := CollectCluster(startNodeId);
      DebitBeams(startNodeId, visitedBeams, scene);
    }

    /**
     * The debit loop of RemoveSupportBonusFromNode over the collected beams:
     * every beam whose ledger lists the node and that is still live loses
     * one bonus and the node from its ledger.
     */
    method DebitBeams(startNodeId: NodeId, visitedBeams: set<BeamId>, scene: Scene)
      modifies this`beamBonusApplied, scene
      ensures var debited := Debited(old(beamBonusApplied), visitedBeams, old(scene.hinges).Keys, startNodeId);
        && beamBonusApplied == WithoutSupport(old(beamBonusApplied), debited, startNodeId)
        && scene.hinges == Shift(old(scene.hinges), debited, -1)
        && scene.commands == old(scene.commands)
    {
      ghost var ledger0, hinges0 := beamBonusApplied, scene.hinges;
      ghost var debited: set<BeamId> := {};
      var todo := visitedBeams;
      while todo != {}
        invariant todo <= visitedBeams
        invariant debited == Debited(ledger0, visitedBeams - todo, hinges0.Keys, startNodeId)
        invariant beamBonusApplied == WithoutSupport(ledger0, debited, startNodeId)
        invariant scene.hinges == Shift(hinges0, debited, -1)
        invariant scene.commands == old(scene.commands)
        decreases todo
      {
        var beamId := Pick(todo);
        DebitedStep(ledger0, visitedBeams, hinges0.Keys, startNodeId, todo, beamId);
        Untouched(ledger0, hinges0, debited, startNodeId, -1, beamId);
        todo := todo - {beamId};
        ghost var hit := beamId in ledger0 && startNodeId in ledger0[beamId] && beamId in hinges0;
        if hit {
          CreditOne(ledger0, hinges0, debited, startNodeId, -1, beamId);
        }
        DebitBeam(startNodeId, beamId, scene);
        if hit {
          debited := debited + {beamId};
        }
      }
      assert visitedBeams - todo == visitedBeams;
    }

    /**
     * One step of the credit loop: a beam with a ledger entry that does not
     * list the node and that is still live gains one bonus, a lock command
     * and the node in its ledger; any other beam is left alone.
     */
    method CreditBeam(startNodeId: NodeId, beamId: BeamId, scene: Scene)
      modifies this`beamBonusApplied, scene
      ensures var ledger, hinges := old(beamBonusApplied), old(scene.hinges);
        if beamId in ledger && startNodeId !in ledger[beamId] && beamId in hinges then
          && beamBonusApplied == ledger[beamId := ledger[beamId] + {startNodeId}]
          && scene.hinges == hinges[beamId := AddBonus(hinges[beamId], 1)]
          && scene.commands == old(scene.commands) + [LockHinges(beamId)]
        else
          beamBonusApplied == ledger && scene.hinges == hinges && scene.commands == old(scene.commands)
    {
      if beamId in beamBonusApplied {
        var appliedSet := beamBonusApplied[beamId];
        if startNodeId !in appliedSet {
          // the beam must still resolve to a live object
          if beamId in scene.hinges {
            var t := scene.hinges[beamId];
            scene.hinges := scene.hinges[beamId := Thresholds(t.breakForce + SupportBonusForce, t.breakTorque + SupportBonusTorque)];
            LockBeamHinges(beamId, scene);
            beamBonusApplied := beamBonusApplied[beamId := appliedSet + {startNodeId}];
          }
        }
      }
    }

    /**
     * One step of the debit loop: a beam whose ledger lists the node and that
     * is still live loses one bonus and the node from its ledger; any other
     * beam is left alone.  The unlock test runs before the node is taken out
     * of the ledger, while the ledger still lists it, so it never fires.
     */
    method DebitBeam(startNodeId: NodeId, beamId: BeamId, scene: Scene)
      modifies this`beamBonusApplied, scene
      ensures var ledger, hinges := old(beamBonusApplied), old(scene.hinges);
        if beamId in ledger && startNodeId in ledger[beamId] && beamId in hinges then
          && beamBonusApplied == ledger[beamId := ledger[beamId] - {startNodeId}]
          && scene.hinges == hinges[beamId := AddBonus(hinges[beamId], -1)]
        else
          beamBonusApplied == ledger && scene.hinges == hinges
      ensures scene.commands == old(scene.commands)
    {
      if beamId in beamBonusApplied {
        var appliedSet := beamBonusApplied[beamId];
        if startNodeId in appliedSet {
          // the beam must still resolve to a live object
          if beamId in scene.hinges {
            var t := scene.hinges[beamId];
            scene.hinges := scene.hinges[beamId := Thresholds(t.breakForce - SupportBonusForce, t.breakTorque - SupportBonusTorque)];
            UnlockIfUnsupported(beamId, appliedSet, scene);
            beamBonusApplied := beamBonusApplied[beamId := appliedSet - {startNodeId}];
          }
        }
      }
    }

    /** Restores a beam's default hinge limits once its ledger `applied` is empty. */
    method UnlockIfUnsupported(beamId: BeamId, applied: set<NodeId>, scene: Scene)
      modifies scene`commands
      ensures scene.commands == old(scene.commands) +
        if |applied| == 0 && beamId in scene.hinges then [UnlockHinges(beamId)] else []
    {
      if |applied| == 0 {
        UnlockBeamHinges(beamId, scene);
      }
    }

    /** Locks the beam's hinges, if the beam still resolves to a live object. */
    method LockBeamHinges(beamId: BeamId, scene: Scene)
      modifies scene`commands
      ensures scene.commands == old(scene.commands) + if beamId in scene.hinges then [LockHinges(beamId)] else []
    {
      if beamId in scene.hinges {
        scene.commands := scene.commands + [LockHinges(beamId)];
      }
    }

    /** Restores the beam's default hinge limits, if the beam still resolves to a live object. */
    method UnlockBeamHinges(beamId: BeamId, scene: Scene)
      modifies scene`commands
      ensures scene.commands == old(scene.commands) + if beamId in scene.hinges then [UnlockHinges(beamId)] else []
    {
      if beamId in scene.hinges {
        scene.commands := scene.commands + [UnlockHinges(beamId)];
      }
    }
  }
}
