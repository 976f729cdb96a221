/**
 * The structural registry of the bridge: which beams hang on which nodes,
 * which two nodes each beam joins, which nodes are braced by a support, and
 * the per-beam bonus ledger.  This module holds the registry as a value and
 * the purely structural halves of RegisterBeam and UnregisterBeam.
 */
module Graph {

  /** Nodes and beams are identified by engine instance ids. */
  type NodeId = int
  type BeamId = int

  /** The two endpoint nodes recorded for a beam, in registration order. */
  datatype Ends = Ends(a: NodeId, b: NodeId)

  predicate IsEnd(e: Ends, n: NodeId)
  {
    e.a == n || e.b == n
  }

  /**
   * The four registry tables: beam -> its endpoints, node -> its incident
   * beams, the supported nodes, and beam -> the supported nodes whose bonus
   * has already been added to that beam (the ledger).
   */
  datatype Registry = Registry(
    beamToNodes: map<BeamId, Ends>,
    nodeToBeams: map<NodeId, set<BeamId>>,
    supported: set<NodeId>,
    bonusApplied: map<BeamId, set<NodeId>>)

  const EmptyRegistry := Registry(map[], map[], {}, map[])

  predicate Incident(r: Registry, n: NodeId, beam: BeamId)
  {
    n in r.nodeToBeams && beam in r.nodeToBeams[n]
  }

  /** Adds `beam` to the incident set of `n`, creating the set if `n` has none. */
  function Attach(nodeToBeams: map<NodeId, set<BeamId>>, n: NodeId, beam: BeamId): (m: map<NodeId, set<BeamId>>)
    ensures m.Keys == nodeToBeams.Keys + {n}
    ensures beam in m[n]
    ensures forall x :: x in nodeToBeams ==> nodeToBeams[x] <= m[x]
    ensures forall x, y :: x in m && y in m[x] ==> (x == n && y == beam) || (x in nodeToBeams && y in nodeToBeams[x])
  {
    var beams := if n in nodeToBeams then nodeToBeams[n] else {};
    nodeToBeams[n := beams + {beam}]
  }

  /** Removes `beam` from the incident set of `n`, dropping the entry once it is empty. */
  function Detach(nodeToBeams: map<NodeId, set<BeamId>>, n: NodeId, beam: BeamId): (m: map<NodeId, set<BeamId>>)
    ensures forall x :: x != n ==> (x in m <==> x in nodeToBeams) && (x in m ==> m[x] == nodeToBeams[x])
    ensures n in m <==> n in nodeToBeams && nodeToBeams[n] - {beam} != {}
    ensures n in m ==> m[n] == nodeToBeams[n] - {beam}
  {
    if n !in nodeToBeams then nodeToBeams
    else
      var rest := nodeToBeams[n] - {beam};
      if |rest| == 0 then nodeToBeams - {n} else nodeToBeams[n := rest]
  }

  /**
   * The bookkeeping RegisterBeam does before any bonus is propagated: the
   * endpoint record is (over)written, the beam joins both incident sets and
   * its ledger entry is reset to empty.
   */
  function Link(r: Registry, beam: BeamId, nodeA: NodeId, nodeB: NodeId): (r': Registry)
    ensures r'.beamToNodes.Keys == r.beamToNodes.Keys + {beam}
    ensures r'.beamToNodes[beam] == Ends(nodeA, nodeB)
    ensures Incident(r', nodeA, beam) && Incident(r', nodeB, beam)
    ensures r'.nodeToBeams.Keys == r.nodeToBeams.Keys + {nodeA, nodeB}
    ensures forall n, x :: Incident(r, n, x) ==> Incident(r', n, x)
    ensures r'.bonusApplied.Keys == r.bonusApplied.Keys + {beam} && r'.bonusApplied[beam] == {}
    ensures forall x :: x != beam && x in r.beamToNodes ==> r'.beamToNodes[x] == r.beamToNodes[x]
    ensures forall x :: x != beam && x in r.bonusApplied ==> r'.bonusApplied[x] == r.bonusApplied[x]
    ensures r'.supported == r.supported
  {
    Registry(
      r.beamToNodes[beam := Ends(nodeA, nodeB)],
      Attach(Attach(r.nodeToBeams, nodeA, beam), nodeB, beam),
      r.supported,
      r.bonusApplied[beam := {}])
  }

  /**
   * UnregisterBeam: an unknown beam leaves the registry as it is; a known one
   * leaves both endpoint incident sets (empty sets are pruned) and loses its
   * endpoint record and its ledger entry.  Supported nodes are not touched.
   */
  function Unlink(r: Registry, beam: BeamId): (r': Registry)
    ensures beam !in r.beamToNodes ==> r' == r
    ensures r'.supported == r.supported
    ensures beam in r.beamToNodes ==>
      r'.beamToNodes == r.beamToNodes - {beam} && r'.bonusApplied == r.bonusApplied - {beam}
  {
    if beam !in r.beamToNodes then r
    else
      var e := r.beamToNodes[beam];
      Registry(
        r.beamToNodes - {beam},
        Detach(Detach(r.nodeToBeams, e.a, beam), e.b, beam),
        r.supported,
        r.bonusApplied - {beam})
  }

  /** A beam is listed under a node exactly when that node is one of its recorded endpoints. */
  ghost predicate Symmetric(r: Registry)
  {
    && (forall beam :: beam in r.beamToNodes ==>
          Incident(r, r.beamToNodes[beam].a, beam) && Incident(r, r.beamToNodes[beam].b, beam))
    && (forall n, beam :: Incident(r, n, beam) ==>
          beam in r.beamToNodes && IsEnd(r.beamToNodes[beam], n))
  }

  /** No node keeps an empty incident set. */
  ghost predicate Pruned(r: Registry)
  {
    forall n :: n in r.nodeToBeams ==> r.nodeToBeams[n] != {}
  }

  /** Every registered beam, and only those, has a ledger entry. */
  ghost predicate LedgerAligned(r: Registry)
  {
    r.bonusApplied.Keys == r.beamToNodes.Keys
  }

  ghost predicate WellFormed(r: Registry)
  {
    Symmetric(r) && Pruned(r) && LedgerAligned(r)
  }

  /**
   * Well-formedness depends only on the two adjacency tables and on which
   * beams have a ledger entry: the supported set and the ledger contents
   * may change freely.
   */
  lemma WellFormedStructural(r: Registry, r': Registry)
    requires WellFormed(r)
    requires r'.beamToNodes == r.beamToNodes && r'.nodeToBeams == r.nodeToBeams
    requires r'.bonusApplied.Keys == r.bonusApplied.Keys
    ensures WellFormed(r')
  {
    forall n, beam | Incident(r', n, beam)
      ensures beam in r'.beamToNodes && IsEnd(r'.beamToNodes[beam], n)
    {
      assert Incident(r, n, beam);
    }
  }

  lemma EmptyRegistryWellFormed()
    ensures WellFormed(EmptyRegistry)
  {
  }

  /** Registering a beam that is not yet known keeps the registry well formed. */
  lemma LinkPreservesWellFormed(r: Registry, beam: BeamId, nodeA: NodeId, nodeB: NodeId)
    requires WellFormed(r)
    requires beam !in r.beamToNodes
    ensures WellFormed(Link(r, beam, nodeA, nodeB))
  {
    var r' := Link(r, beam, nodeA, nodeB);
    forall n, x | Incident(r', n, x)
      ensures x in r'.beamToNodes && IsEnd(r'.beamToNodes[x], n)
    {
      var inc1 := Attach(r.nodeToBeams, nodeA, beam);
      if !((n == nodeB && x == beam) || (n == nodeA && x == beam)) {
        assert n in inc1 && x in inc1[n];
        assert Incident(r, n, x);
      }
    }
  }

  /**
   * Registering a known beam again under new endpoints leaves it listed
   * under its old endpoints: the registry is no longer symmetric.
   */
  lemma RelinkBreaksSymmetry()
    ensures var r := Link(EmptyRegistry, 1, 10, 11);
      WellFormed(r) && !Symmetric(Link(r, 1, 20, 21))
  {
    var r := Link(EmptyRegistry, 1, 10, 11);
    LinkPreservesWellFormed(EmptyRegistry, 1, 10, 11);
    var r2 := Link(r, 1, 20, 21);
    assert Incident(r2, 10, 1) && !IsEnd(r2.beamToNodes[1], 10);
  }

  /** Unlinking a known beam drops its incidence at its two endpoints and no other. */
  lemma UnlinkIncidentAt(r: Registry, beam: BeamId, n: NodeId, x: BeamId)
    requires beam in r.beamToNodes
    ensures Incident(Unlink(r, beam), n, x) <==>
      Incident(r, n, x) && !(x == beam && IsEnd(r.beamToNodes[beam], n))
  {
    var e := r.beamToNodes[beam];
    var d1 := Detach(r.nodeToBeams, e.a, beam);
    var d2 := Detach(d1, e.b, beam);
    assert Unlink(r, beam).nodeToBeams == d2;
  }

  /** Unlinking a beam drops exactly its own incidences. */
  lemma UnlinkIncidence(r: Registry, beam: BeamId)
    requires Symmetric(r)
    ensures var r' := Unlink(r, beam);
      && (forall n :: !Incident(r', n, beam))
      && (forall n, x :: x != beam ==> (Incident(r', n, x) <==> Incident(r, n, x)))
  {
    if beam in r.beamToNodes {
      forall n, x
        ensures Incident(Unlink(r, beam), n, x) <==>
          Incident(r, n, x) && !(x == beam && IsEnd(r.beamToNodes[beam], n))
      {
        UnlinkIncidentAt(r, beam, n, x);
      }
    }
  }

  /**
   * Unregistering a known beam removes every trace of it, keeps every other
   * incidence, and keeps the registry well formed (no empty incident set).
   */
  lemma UnlinkForgetsBeam(r: Registry, beam: BeamId)
    requires WellFormed(r)
    ensures var r' := Unlink(r, beam);
      && WellFormed(r')
      && beam !in r'.beamToNodes && beam !in r'.bonusApplied
      && (forall n :: !Incident(r', n, beam))
      && (forall n, x :: x != beam ==> (Incident(r', n, x) <==> Incident(r, n, x)))
  {
    UnlinkIncidence(r, beam);
    var r' := Unlink(r, beam);
    if beam in r.beamToNodes {
      var e := r.beamToNodes[beam];
      forall n, x | Incident(r', n, x)
        ensures x in r'.beamToNodes && IsEnd(r'.beamToNodes[x], n)
      {
        assert Incident(r, n, x);
      }
      forall n | n in r'.nodeToBeams
        ensures r'.nodeToBeams[n] != {}
      {
        if n != e.b && n != e.a {
          assert r'.nodeToBeams[n] == r.nodeToBeams[n];
        }
      }
    }
  }
}
