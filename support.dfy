/**
 * Support-bonus propagation as functions of the registry and of the hinge
 * thresholds of the beams still present in the scene.  A supported node adds
 * a fixed force/torque bonus to every live beam of its cluster, at most once
 * per (node, beam) pair, and the ledger remembers which pairs were credited.
 */
module Support {
  import opened Graph
  import opened Reachability

  /** The configured break thresholds: base values and the bonus per supporting node. */
  const BaseBreakForce: int := 15
  const BaseBreakTorque: int := 6
  const SupportBonusForce: int := 3
  const SupportBonusTorque: int := 2

  /** The break force and break torque carried by every hinge of a beam. */
  datatype Thresholds = Thresholds(breakForce: int, breakTorque: int)

  /** The thresholds a beam should carry when `k` supporting nodes have credited it. */
  function Expected(k: nat): Thresholds
  {
    Thresholds(BaseBreakForce + k * SupportBonusForce, BaseBreakTorque + k * SupportBonusTorque)
  }

  /** `t` moved by `k` bonus steps (negative `k` subtracts). */
  function AddBonus(t: Thresholds, k: int): Thresholds
  {
    Thresholds(t.breakForce + k * SupportBonusForce, t.breakTorque + k * SupportBonusTorque)
  }

  /**
   * The registry together with the hinge thresholds of the beams that still
   * exist in the scene; a beam that is not a key of `hinges` does not
   * resolve to a live object.
   */
  datatype World = World(reg: Registry, hinges: map<BeamId, Thresholds>)

  ghost function ClusterOf(w: World, n: NodeId): set<BeamId>
  {
    Cluster(w.reg.beamToNodes, w.reg.nodeToBeams, n)
  }

  /** Cluster beams that have a ledger entry, are live, and have not yet been credited by `n`. */
  function Credited(ledger: map<BeamId, set<NodeId>>, cluster: set<BeamId>, live: set<BeamId>, n: NodeId): set<BeamId>
  {
    set beam | beam in cluster && beam in ledger && beam in live && n !in ledger[beam]
  }

  /** Cluster beams that have a ledger entry, are live, and have been credited by `n`. */
  function Debited(ledger: map<BeamId, set<NodeId>>, cluster: set<BeamId>, live: set<BeamId>, n: NodeId): set<BeamId>
  {
    set beam | beam in cluster && beam in ledger && beam in live && n in ledger[beam]
  }

  function WithSupport(ledger: map<BeamId, set<NodeId>>, beams: set<BeamId>, n: NodeId): map<BeamId, set<NodeId>>
  {
    map beam | beam in ledger :: if beam in beams then ledger[beam] + {n} else ledger[beam]
  }

  function WithoutSupport(ledger: map<BeamId, set<NodeId>>, beams: set<BeamId>, n: NodeId): map<BeamId, set<NodeId>>
  {
    map beam | beam in ledger :: if beam in beams then ledger[beam] - {n} else ledger[beam]
  }

  function Shift(hinges: map<BeamId, Thresholds>, beams: set<BeamId>, k: int): map<BeamId, Thresholds>
  {
    map beam | beam in hinges :: if beam in beams then AddBonus(hinges[beam], k) else hinges[beam]
  }

  /** The beams ApplySupportBonusFromNode credits for `n`. */
  ghost function CreditedBy(w: World, n: NodeId): set<BeamId>
  {
    Credited(w.reg.bonusApplied, ClusterOf(w, n), w.hinges.Keys, n)
  }

  /** The beams RemoveSupportBonusFromNode debits for `n`. */
  ghost function DebitedBy(w: World, n: NodeId): set<BeamId>
  {
    Debited(w.reg.bonusApplied, ClusterOf(w, n), w.hinges.Keys, n)
  }

  /** ApplySupportBonusFromNode: one bonus and one ledger entry per credited beam. */
  ghost function ApplyFrom(w: World, n: NodeId): World
  {
    var c := CreditedBy(w, n);
    World(w.reg.(bonusApplied := WithSupport(w.reg.bonusApplied, c, n)), Shift(w.hinges, c, 1))
  }

  /** RemoveSupportBonusFromNode: one bonus less and one ledger entry less per debited beam. */
  ghost function RemoveFrom(w: World, n: NodeId): World
  {
    var d := DebitedBy(w, n);
    World(w.reg.(bonusApplied := WithoutSupport(w.reg.bonusApplied, d, n)), Shift(w.hinges, d, -1))
  }

  /** MarkNodeSupported: a no-op on a supported node; otherwise record it and apply its bonus. */
  ghost function Mark(w: World, n: NodeId): World
  {
    if n in w.reg.supported then w
    else ApplyFrom(w.(reg := w.reg.(supported := w.reg.supported + {n})), n)
  }

  /** UnmarkNodeSupported: a no-op on an unsupported node; otherwise forget it and remove its bonus. */
  ghost function Unmark(w: World, n: NodeId): World
  {
    if n !in w.reg.supported then w
    else RemoveFrom(w.(reg := w.reg.(supported := w.reg.supported - {n})), n)
  }

  /** The registry and threshold half of RegisterBeam, before the supported endpoints propagate. */
  function Linked(w: World, beam: BeamId, nodeA: NodeId, nodeB: NodeId): World
  {
    World(
      Link(w.reg, beam, nodeA, nodeB),
      if beam in w.hinges then w.hinges[beam := Expected(0)] else w.hinges)
  }

  /** RegisterBeam: link, reset to base thresholds, then apply the bonus of each supported endpoint. */
  ghost function Register(w: World, beam: BeamId, nodeA: NodeId, nodeB: NodeId): World
  {
    var w1 := Linked(w, beam, nodeA, nodeB);
    var w2 := if nodeA in w1.reg.supported then ApplyFrom(w1, nodeA) else w1;
    if nodeB in w2.reg.supported then ApplyFrom(w2, nodeB) else w2
  }

  /** UnregisterBeam: the thresholds of the scene are not touched. */
  function Unregister(w: World, beam: BeamId): World
  {
    w.(reg := Unlink(w.reg, beam))
  }

  /** Every live beam with a ledger entry carries base + bonus x (number of credited nodes). */
  ghost predicate Calibrated(w: World)
  {
    forall beam :: beam in w.reg.bonusApplied && beam in w.hinges ==>
      w.hinges[beam] == Expected(|w.reg.bonusApplied[beam]|)
  }

  /** Applying a node's bonus keeps every live beam's thresholds equal to base + bonus x |ledger|. */
  lemma ApplyFromCalibrated(w: World, n: NodeId)
    requires Calibrated(w)
    ensures Calibrated(ApplyFrom(w, n))
  {
    var c := CreditedBy(w, n);
    var w' := ApplyFrom(w, n);
    forall beam | beam in w'.reg.bonusApplied && beam in w'.hinges
      ensures w'.hinges[beam] == Expected(|w'.reg.bonusApplied[beam]|)
    {
      if beam in c {
        var s := w.reg.bonusApplied[beam];
        assert |s + {n}| == |s| + 1;
      }
    }
  }

  /** Removing a node's bonus keeps every live beam's thresholds equal to base + bonus x |ledger|. */
  lemma RemoveFromCalibrated(w: World, n: NodeId)
    requires Calibrated(w)
    ensures Calibrated(RemoveFrom(w, n))
  {
    var d := DebitedBy(w, n);
    var w' := RemoveFrom(w, n);
    forall beam | beam in w'.reg.bonusApplied && beam in w'.hinges
      ensures w'.hinges[beam] == Expected(|w'.reg.bonusApplied[beam]|)
    {
      if beam in d {
        var s := w.reg.bonusApplied[beam];
        assert |s - {n}| == |s| - 1;
      }
    }
  }

  lemma MarkCalibrated(w: World, n: NodeId)
    requires Calibrated(w)
    ensures Calibrated(Mark(w, n))
  {
    if n !in w.reg.supported {
      ApplyFromCalibrated(w.(reg := w.reg.(supported := w.reg.supported + {n})), n);
    }
  }

  lemma UnmarkCalibrated(w: World, n: NodeId)
    requires Calibrated(w)
    ensures Calibrated(Unmark(w, n))
  {
    if n in w.reg.supported {
      RemoveFromCalibrated(w.(reg := w.reg.(supported := w.reg.supported - {n})), n);
    }
  }

  /**
   * Registering a beam keeps the calibration, even when the beam was already
   * known: its ledger entry and its thresholds are reset together.
   */
  lemma RegisterCalibrated(w: World, beam: BeamId, nodeA: NodeId, nodeB: NodeId)
    requires Calibrated(w)
    ensures Calibrated(Register(w, beam, nodeA, nodeB))
  {
    var w1 := Linked(w, beam, nodeA, nodeB);
    assert Calibrated(w1);
    var w2 := if nodeA in w1.reg.supported then ApplyFrom(w1, nodeA) else w1;
    if nodeA in w1.reg.supported {
      ApplyFromCalibrated(w1, nodeA);
    }
    if nodeB in w2.reg.supported {
      ApplyFromCalibrated(w2, nodeB);
    }
  }

  lemma UnregisterCalibrated(w: World, beam: BeamId)
    requires Calibrated(w)
    ensures Calibrated(Unregister(w, beam))
  {
  }

  /** Bonus propagation changes only the ledger: the adjacency and the supported set stay as they are. */
  lemma ApplyFromKeepsStructure(w: World, n: NodeId)
    ensures var w' := ApplyFrom(w, n);
      && w'.reg.beamToNodes == w.reg.beamToNodes && w'.reg.nodeToBeams == w.reg.nodeToBeams
      && w'.reg.supported == w.reg.supported
      && w'.reg.bonusApplied.Keys == w.reg.bonusApplied.Keys && w'.hinges.Keys == w.hinges.Keys
      && (WellFormed(w.reg) ==> WellFormed(w'.reg))
  {
    if WellFormed(w.reg) {
      WellFormedStructural(w.reg, ApplyFrom(w, n).reg);
    }
  }

  /** Bonus removal likewise changes only the ledger. */
  lemma RemoveFromKeepsStructure(w: World, n: NodeId)
    ensures var w' := RemoveFrom(w, n);
      && w'.reg.beamToNodes == w.reg.beamToNodes && w'.reg.nodeToBeams == w.reg.nodeToBeams
      && w'.reg.supported == w.reg.supported
      && w'.reg.bonusApplied.Keys == w.reg.bonusApplied.Keys && w'.hinges.Keys == w.hinges.Keys
      && (WellFormed(w.reg) ==> WellFormed(w'.reg))
  {
    if WellFormed(w.reg) {
      WellFormedStructural(w.reg, RemoveFrom(w, n).reg);
    }
  }

  /** Marking a node keeps the registry well formed. */
  lemma MarkKeepsWellFormed(w: World, n: NodeId)
    requires WellFormed(w.reg)
    ensures WellFormed(Mark(w, n).reg)
  {
    if n !in w.reg.supported {
      WellFormedStructural(w.reg, w.reg.(supported := w.reg.supported + {n}));
      ApplyFromKeepsStructure(w.(reg := w.reg.(supported := w.reg.supported + {n})), n);
    }
  }

  /** Unmarking a node keeps the registry well formed. */
  lemma UnmarkKeepsWellFormed(w: World, n: NodeId)
    requires WellFormed(w.reg)
    ensures WellFormed(Unmark(w, n).reg)
  {
    if n in w.reg.supported {
      WellFormedStructural(w.reg, w.reg.(supported := w.reg.supported - {n}));
      RemoveFromKeepsStructure(w.(reg := w.reg.(supported := w.reg.supported - {n})), n);
    }
  }

  /** Registering a beam that is not yet known keeps the registry well formed. */
  lemma RegisterKeepsWellFormed(w: World, beam: BeamId, nodeA: NodeId, nodeB: NodeId)
    requires WellFormed(w.reg) && beam !in w.reg.beamToNodes
    ensures WellFormed(Register(w, beam, nodeA, nodeB).reg)
  {
    LinkPreservesWellFormed(w.reg, beam, nodeA, nodeB);
    var w1 := Linked(w, beam, nodeA, nodeB);
    ApplyFromKeepsStructure(w1, nodeA);
    var w2 := if nodeA in w1.reg.supported then ApplyFrom(w1, nodeA) else w1;
    ApplyFromKeepsStructure(w2, nodeB);
  }

  /** Unregistering a beam keeps the registry well formed. */
  lemma UnregisterKeepsWellFormed(w: World, beam: BeamId)
    requires WellFormed(w.reg)
    ensures WellFormed(Unregister(w, beam).reg)
  {
    UnlinkForgetsBeam(w.reg, beam);
  }

  /**
   * Applying a node's bonus reaches the whole cluster exactly once: afterwards
   * every live cluster beam with a ledger entry lists the node; a credited beam
   * gains exactly one bonus and one ledger entry; every other beam, and in
   * particular every beam outside the cluster, keeps its ledger and thresholds.
   */
  lemma ApplyFromCoversCluster(w: World, n: NodeId)
    ensures var w' := ApplyFrom(w, n); var c := CreditedBy(w, n);
      && c <= ClusterOf(w, n)
      && (forall beam :: beam in ClusterOf(w, n) && beam in w.reg.bonusApplied && beam in w.hinges ==>
            n in w'.reg.bonusApplied[beam])
      && (forall beam :: beam in c ==>
            w'.hinges[beam] == AddBonus(w.hinges[beam], 1) &&
            w'.reg.bonusApplied[beam] == w.reg.bonusApplied[beam] + {n} &&
            |w'.reg.bonusApplied[beam]| == |w.reg.bonusApplied[beam]| + 1)
      && (forall beam :: beam in w.reg.bonusApplied && beam !in c ==>
            w'.reg.bonusApplied[beam] == w.reg.bonusApplied[beam])
      && (forall beam :: beam in w.hinges && beam !in c ==> w'.hinges[beam] == w.hinges[beam])
  {
    var w' := ApplyFrom(w, n);
    var c := CreditedBy(w, n);
    forall beam | beam in c
      ensures |w'.reg.bonusApplied[beam]| == |w.reg.bonusApplied[beam]| + 1
    {
      assert n !in w.reg.bonusApplied[beam];
    }
  }

  /** Applying the same node's bonus twice is the same as applying it once. */
  lemma ApplyFromIdempotent(w: World, n: NodeId)
    ensures ApplyFrom(ApplyFrom(w, n), n) == ApplyFrom(w, n)
  {
    var w1 := ApplyFrom(w, n);
    assert ClusterOf(w1, n) == ClusterOf(w, n);
    forall beam | beam in ClusterOf(w, n) && beam in w1.reg.bonusApplied && beam in w1.hinges
      ensures n in w1.reg.bonusApplied[beam]
    {
    }
    assert CreditedBy(w1, n) == {};
    assert WithSupport(w1.reg.bonusApplied, {}, n) == w1.reg.bonusApplied;
    assert Shift(w1.hinges, {}, 1) == w1.hinges;
  }

  /**
   * Removing a node's bonus from its cluster reaches the whole cluster: afterwards
   * no live cluster beam with a ledger entry lists the node; a debited beam loses
   * exactly one bonus and one ledger entry; every other beam keeps its ledger and
   * thresholds.
   */
  lemma RemoveFromCoversCluster(w: World, n: NodeId)
    ensures var w' := RemoveFrom(w, n); var d := DebitedBy(w, n);
      && d <= ClusterOf(w, n)
      && (forall beam :: beam in ClusterOf(w, n) && beam in w.reg.bonusApplied && beam in w.hinges ==>
            n !in w'.reg.bonusApplied[beam])
      && (forall beam :: beam in d ==>
            w'.hinges[beam] == AddBonus(w.hinges[beam], -1) &&
            w'.reg.bonusApplied[beam] == w.reg.bonusApplied[beam] - {n} &&
            |w'.reg.bonusApplied[beam]| + 1 == |w.reg.bonusApplied[beam]|)
      && (forall beam :: beam in w.reg.bonusApplied && beam !in d ==>
            w'.reg.bonusApplied[beam] == w.reg.bonusApplied[beam])
      && (forall beam :: beam in w.hinges && beam !in d ==> w'.hinges[beam] == w.hinges[beam])
  {
    var w' := RemoveFrom(w, n);
    var d := DebitedBy(w, n);
    forall beam | beam in d
      ensures |w'.reg.bonusApplied[beam]| + 1 == |w.reg.bonusApplied[beam]|
    {
      assert n in w.reg.bonusApplied[beam];
    }
  }

  /** Removing the same node's bonus twice is the same as removing it once. */
  lemma RemoveFromIdempotent(w: World, n: NodeId)
    ensures RemoveFrom(RemoveFrom(w, n), n) == RemoveFrom(w, n)
  {
    var w1 := RemoveFrom(w, n);
    assert ClusterOf(w1, n) == ClusterOf(w, n);
    forall beam | beam in ClusterOf(w, n) && beam in w1.reg.bonusApplied && beam in w1.hinges
      ensures n !in w1.reg.bonusApplied[beam]
    {
    }
    assert DebitedBy(w1, n) == {};
    assert WithoutSupport(w1.reg.bonusApplied, {}, n) == w1.reg.bonusApplied;
    assert Shift(w1.hinges, {}, -1) == w1.hinges;
  }

  /**
   * No live beam of `n`'s cluster lists `n` in its ledger. Beams outside the
   * cluster may still list it (an unmark that returned early leaves such entries).
   */
  ghost predicate FreshInCluster(w: World, n: NodeId)
  {
    forall beam :: beam in ClusterOf(w, n) && beam in w.reg.bonusApplied && beam in w.hinges ==>
      n !in w.reg.bonusApplied[beam]
  }

  /**
   * Removing a node's bonus right after applying it, on an unchanged graph,
   * restores every ledger and every threshold, provided no live beam of the
   * node's cluster listed the node beforehand.
   */
  lemma ApplyThenRemove(w: World, n: NodeId)
    requires FreshInCluster(w, n)
    ensures RemoveFrom(ApplyFrom(w, n), n) == w
  {
    var w1 := ApplyFrom(w, n);
    var c := CreditedBy(w, n);
    assert ClusterOf(w1, n) == ClusterOf(w, n);
    assert DebitedBy(w1, n) == c;
    var w2 := RemoveFrom(w1, n);
    assert w2.reg.bonusApplied == w.reg.bonusApplied by {
      forall beam | beam in w.reg.bonusApplied
        ensures w2.reg.bonusApplied[beam] == w.reg.bonusApplied[beam]
      {
        if beam in c {
          assert w.reg.bonusApplied[beam] + {n} - {n} == w.reg.bonusApplied[beam];
        }
      }
    }
    assert w2.hinges == w.hinges;
  }

  /**
   * MarkNodeSupported followed by UnmarkNodeSupported on an unchanged graph
   * restores the registry and every threshold exactly, provided no live beam
   * of the node's cluster already listed the node.
   */
  lemma MarkThenUnmark(w: World, n: NodeId)
    requires n !in w.reg.supported
    requires FreshInCluster(w, n)
    ensures Unmark(Mark(w, n), n) == w
  {
    var wm := w.(reg := w.reg.(supported := w.reg.supported + {n}));
    var wa := ApplyFrom(wm, n);
    var wu := wa.(reg := wa.reg.(supported := wa.reg.supported - {n}));
    assert ClusterOf(wm, n) == ClusterOf(w, n);
    assert wu == ApplyFrom(w, n);
    ApplyThenRemove(w, n);
  }

  /**
   * The ledger precondition of MarkThenUnmark cannot be dropped: when a stale
   * ledger entry already lists an unsupported node, marking it adds no bonus
   * (the ledger says it was given) but unmarking it takes one away, so the
   * beam ends one bonus below where it started.
   */
  lemma MarkThenUnmarkNeedsFreshLedger()
    ensures var reg := Link(EmptyRegistry, 1, 10, 11).(bonusApplied := map[1 := {10}]);
      var w := World(reg, map[1 := Expected(1)]);
      && 10 !in w.reg.supported && Calibrated(w)
      && Unmark(Mark(w, 10), 10).hinges[1] == Expected(0)
      && Unmark(Mark(w, 10), 10) != w
  {
    var reg := Link(EmptyRegistry, 1, 10, 11).(bonusApplied := map[1 := {10}]);
    var w := World(reg, map[1 := Expected(1)]);
    var wm := w.(reg := w.reg.(supported := w.reg.supported + {10}));
    assert CreditedBy(wm, 10) == {};
    assert WithSupport(wm.reg.bonusApplied, {}, 10) == wm.reg.bonusApplied;
    assert Shift(wm.hinges, {}, 1) == wm.hinges;
    assert Mark(w, 10) == wm;
    var wu := wm.(reg := wm.reg.(supported := wm.reg.supported - {10}));
    IncidentInCluster(wu.reg.beamToNodes, wu.reg.nodeToBeams, 10, 1);
    assert DebitedBy(wu, 10) == {1};
    assert Unmark(Mark(w, 10), 10).hinges[1] == AddBonus(Expected(1), -1);
  }

  /**
   * Stale ledger entries outside the node's cluster do not disturb the round
   * trip: beam 2 on 20-21 still lists node 10 (left there by an unmark that
   * returned early), yet marking and unmarking 10, whose cluster is beam 1 on
   * 10-11, restores the world exactly.
   */
  lemma MarkThenUnmarkIgnoresResidue()
    ensures var reg := Registry(map[1 := Ends(10, 11), 2 := Ends(20, 21)],
                                map[10 := {1}, 11 := {1}, 20 := {2}, 21 := {2}], {},
                                map[1 := {}, 2 := {10}]);
      var w := World(reg, map[1 := Expected(0), 2 := Expected(1)]);
      && Calibrated(w) && 10 in w.reg.bonusApplied[2]
      && Unmark(Mark(w, 10), 10) == w
  {
    var reg := Registry(map[1 := Ends(10, 11), 2 := Ends(20, 21)],
                        map[10 := {1}, 11 := {1}, 20 := {2}, 21 := {2}], {},
                        map[1 := {}, 2 := {10}]);
    var w := World(reg, map[1 := Expected(0), 2 := Expected(1)]);
    ClosedContainsCluster(reg.beamToNodes, reg.nodeToBeams, 10, {10, 11}, {1});
    assert FreshInCluster(w, 10);
    MarkThenUnmark(w, 10);
  }

  /** Marking an already-supported node, or unmarking an unsupported one, changes nothing. */
  lemma MarkIdempotent(w: World, n: NodeId)
    ensures Mark(Mark(w, n), n) == Mark(w, n)
    ensures n !in w.reg.supported ==> Unmark(w, n) == w
  {
    if n !in w.reg.supported {
      ApplyFromKeepsStructure(w.(reg := w.reg.(supported := w.reg.supported + {n})), n);
    }
  }

  /** The effect of ApplyFrom on one live cluster beam that has a ledger entry. */
  lemma ApplyFromOnBeam(w: World, n: NodeId, beam: BeamId)
    requires beam in ClusterOf(w, n) && beam in w.reg.bonusApplied && beam in w.hinges
    ensures var w' := ApplyFrom(w, n);
      && w'.reg.bonusApplied[beam] == w.reg.bonusApplied[beam] + {n}
      && w'.hinges[beam] == if n in w.reg.bonusApplied[beam] then w.hinges[beam] else AddBonus(w.hinges[beam], 1)
  {
    if n in w.reg.bonusApplied[beam] {
      assert w.reg.bonusApplied[beam] + {n} == w.reg.bonusApplied[beam];
    }
  }

  /** One conditional propagation step of RegisterBeam, seen from one live cluster beam. */
  lemma ApplyIfSupported(w: World, n: NodeId, beam: BeamId, before: set<NodeId>)
    requires beam in ClusterOf(w, n) && beam in w.hinges && beam in w.reg.bonusApplied
    requires w.reg.bonusApplied[beam] == before && w.hinges[beam] == Expected(|before|)
    ensures var w' := if n in w.reg.supported then ApplyFrom(w, n) else w;
      && w'.reg.bonusApplied[beam] == before + {n} * w.reg.supported
      && w'.hinges[beam] == Expected(|before + {n} * w.reg.supported|)
      && w'.reg.beamToNodes == w.reg.beamToNodes && w'.reg.nodeToBeams == w.reg.nodeToBeams
      && w'.reg.supported == w.reg.supported
      && w'.hinges.Keys == w.hinges.Keys && w'.reg.bonusApplied.Keys == w.reg.bonusApplied.Keys
  {
    if n in w.reg.supported {
      ApplyFromOnBeam(w, n, beam);
      if n !in before {
        assert |before + {n}| == |before| + 1;
      }
    } else {
      assert before + {n} * w.reg.supported == before;
    }
  }

  lemma SupportedEnds(nodeA: NodeId, nodeB: NodeId, s: set<NodeId>)
    ensures ({} + {nodeA} * s) + {nodeB} * s == {nodeA, nodeB} * s
  {
  }

  /**
   * A newly registered live beam ends at the base thresholds plus one bonus
   * per supported endpoint, and its ledger lists exactly those endpoints.
   */
  lemma RegisterCreditsSupportedEnds(w: World, beam: BeamId, nodeA: NodeId, nodeB: NodeId)
    requires beam in w.hinges
    ensures var w' := Register(w, beam, nodeA, nodeB);
      && w'.reg.bonusApplied[beam] == {nodeA, nodeB} * w.reg.supported
      && w'.hinges[beam] == Expected(|{nodeA, nodeB} * w.reg.supported|)
  {
    var s := w.reg.supported;
    var w1 := Linked(w, beam, nodeA, nodeB);
    var none: set<NodeId> := {};
    assert w1.reg.bonusApplied[beam] == none && w1.hinges[beam] == Expected(|none|);
    IncidentInCluster(w1.reg.beamToNodes, w1.reg.nodeToBeams, nodeA, beam);
    ApplyIfSupported(w1, nodeA, beam, none);
    var w2 := if nodeA in s then ApplyFrom(w1, nodeA) else w1;
    IncidentInCluster(w2.reg.beamToNodes, w2.reg.nodeToBeams, nodeB, beam);
    var sa := none + {nodeA} * s;
    ApplyIfSupported(w2, nodeB, beam, sa);
    SupportedEnds(nodeA, nodeB, s);
  }

  /**
   * A new beam inherits a bonus only from its own endpoints: a beam hung from
   * an unsupported node of a supported cluster joins that cluster, yet its
   * ledger stays empty and it keeps the base thresholds.
   */
  lemma RegisterMissesClusterSupport()
    ensures var reg := Link(EmptyRegistry, 1, 10, 11).(supported := {10}, bonusApplied := map[1 := {10}]);
      var w := World(reg, map[1 := Expected(1), 2 := Expected(0)]);
      var w' := Register(w, 2, 11, 12);
      && Calibrated(w) && 10 in w.reg.supported
      && 2 in ClusterOf(w', 10)
      && w'.reg.bonusApplied[2] == {} && w'.hinges[2] == Expected(0)
  {
    var reg := Link(EmptyRegistry, 1, 10, 11).(supported := {10}, bonusApplied := map[1 := {10}]);
    var w := World(reg, map[1 := Expected(1), 2 := Expected(0)]);
    var w1 := Linked(w, 2, 11, 12);
    assert 11 !in w1.reg.supported && 12 !in w1.reg.supported;
    assert Register(w, 2, 11, 12) == w1;
    var b2n, n2b := w1.reg.beamToNodes, w1.reg.nodeToBeams;
    StartReaches(b2n, n2b, 10);
    assert 1 in n2b[10] && IsEnd(b2n[1], 11);
    ReachesStep(b2n, n2b, 10, 10, 11);
    InCluster(b2n, n2b, 10, 11, 2);
  }

  /**
   * A beam credited by both of its endpoints keeps exactly one bonus when one
   * endpoint loses its support.
   */
  lemma UnmarkOneEndKeepsOther(w: World, beam: BeamId)
    requires WellFormed(w.reg) && Calibrated(w)
    requires beam in w.reg.beamToNodes && beam in w.hinges
    requires var e := w.reg.beamToNodes[beam];
      e.a != e.b && e.a in w.reg.supported && w.reg.bonusApplied[beam] == {e.a, e.b}
    ensures var e := w.reg.beamToNodes[beam]; var w' := Unmark(w, e.a);
      w'.reg.bonusApplied[beam] == {e.b} && w'.hinges[beam] == Expected(1)
  {
    var e := w.reg.beamToNodes[beam];
    var wm := w.(reg := w.reg.(supported := w.reg.supported - {e.a}));
    IncidentInCluster(w.reg.beamToNodes, w.reg.nodeToBeams, e.a, beam);
    assert beam in DebitedBy(wm, e.a);
    var w' := Unmark(w, e.a);
    assert w'.reg.bonusApplied[beam] == {e.b};
    UnmarkCalibrated(w, e.a);
  }

  /**
   * Removal walks the current graph: once a node has lost all its beams,
   * unmarking it takes no bonus back, even from beams whose ledger still
   * lists it.
   */
  lemma UnmarkDetachedNodeKeepsBonuses(w: World, n: NodeId)
    requires n !in w.reg.nodeToBeams
    ensures var w' := Unmark(w, n);
      w'.reg.bonusApplied == w.reg.bonusApplied && w'.hinges == w.hinges
  {
    IsolatedClusterEmpty(w.reg.beamToNodes, w.reg.nodeToBeams, n);
    var wm := w.(reg := w.reg.(supported := w.reg.supported - {n}));
    assert DebitedBy(wm, n) == {};
    assert WithoutSupport(w.reg.bonusApplied, {}, n) == w.reg.bonusApplied;
    assert Shift(w.hinges, {}, -1) == w.hinges;
  }

  /**
   * The beams RemoveSupportBonusFromNode sends an unlock command to, as the
   * program is written: its emptiness test reads the ledger entry before the
   * node is taken out of it.
   */
  function UnlockedAsWritten(ledger: map<BeamId, set<NodeId>>, debited: set<BeamId>): set<BeamId>
  {
    set beam | beam in debited && beam in ledger && |ledger[beam]| == 0
  }

  /** The beams whose last supporting node is removed: the emptiness test taken after the removal. */
  function UnlockedAfterRemoval(ledger: map<BeamId, set<NodeId>>, debited: set<BeamId>, n: NodeId): set<BeamId>
  {
    set beam | beam in debited && beam in ledger && |ledger[beam] - {n}| == 0
  }

  /** As written, removing a node's bonus never sends an unlock command. */
  lemma RemoveNeverUnlocks(w: World, n: NodeId)
    ensures UnlockedAsWritten(w.reg.bonusApplied, DebitedBy(w, n)) == {}
  {
    forall beam | beam in DebitedBy(w, n)
      ensures |w.reg.bonusApplied[beam]| != 0
    {
      assert n in w.reg.bonusApplied[beam];
    }
  }

  /**
   * With the test taken after the removal, a beam is unlocked exactly when it
   * goes from at least one supporting node to none.
   */
  lemma UnlockedAfterRemovalIsLastSupport(w: World, n: NodeId, beam: BeamId)
    ensures var before := w.reg.bonusApplied; var after := RemoveFrom(w, n).reg.bonusApplied;
      beam in UnlockedAfterRemoval(before, DebitedBy(w, n), n) <==>
        beam in before && |before[beam]| > 0 && |after[beam]| == 0
  {
    var before := w.reg.bonusApplied;
    if beam in DebitedBy(w, n) {
      assert n in before[beam];
    }
  }

  /**
   * A live beam whose only supporting node is unmarked loses its last bonus,
   * yet the as-written test sends it no unlock command; the test taken after
   * the removal would.
   */
  lemma LastSupportLeavesBeamLocked()
    ensures var reg := Link(EmptyRegistry, 1, 10, 11).(bonusApplied := map[1 := {10}]);
      var w := World(reg, map[1 := Expected(1)]);
      && 1 in DebitedBy(w, 10)
      && RemoveFrom(w, 10).reg.bonusApplied[1] == {}
      && UnlockedAsWritten(w.reg.bonusApplied, DebitedBy(w, 10)) == {}
      && UnlockedAfterRemoval(w.reg.bonusApplied, DebitedBy(w, 10), 10) == {1}
  {
    var reg := Link(EmptyRegistry, 1, 10, 11).(bonusApplied := map[1 := {10}]);
    var w := World(reg, map[1 := Expected(1)]);
    IncidentInCluster(reg.beamToNodes, reg.nodeToBeams, 10, 1);
    assert DebitedBy(w, 10) == {1};
    RemoveNeverUnlocks(w, 10);
    assert {10} - {10} == {};
  }
}
