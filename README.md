# MRPolyBridge bridge graph and level flow in Dafny

This project models the two core components of MRPolyBridge, a mixed-reality bridge-building game.

**The bridge graph** (`BridgeGraph.cs`) is a registry of the bridge's structure:
- which beams hang on which nodes, and which two nodes each beam joins;
- which nodes stand on a support;
- for each beam, the ledger of supported nodes whose bonus it has already received.

Marking a node as supported strengthens every beam of its connected cluster once: each beam gets a higher break force and break torque, and its hinges are locked. Unmarking the node takes that bonus back. The cluster is found by breadth-first search over the registry.

**The game manager** (`GameManager.cs`) is a four-state machine: waiting to start, playing, level complete, all finished. It runs over a zero-based index into the list of level prefabs.

The project has five modules:

- `Graph` (graph.dfy): the registry as a value.
  - `Link` and `Unlink` are the structural halves of RegisterBeam and UnregisterBeam.
  - The well-formedness invariant says the adjacency is symmetric, no incident set is empty, and the ledger is aligned with the beams.
- `Reachability` (cluster.dfy): the cluster of a node, defined by walks over the two adjacency tables. It also proves that a set closed under adjacency contains the cluster.
- `Support` (support.dfy): the bonus bookkeeping as functions over a `World`, meaning a registry plus the thresholds of every live beam.
  - `ApplyFrom`, `RemoveFrom`, `Mark`, `Unmark`, `Register` and `Unregister` are specification functions.
  - The lemmas are about these functions: each live beam carries the base thresholds plus one bonus per node in its ledger, the whole cluster is covered, applying twice is the same as applying once, removing twice is the same as removing once, and apply followed by remove is the identity on an unchanged graph when no live beam of the node's cluster already lists the node.
- `Bridge` (bridge_graph.dfy): the registry as the program runs it.
  - A `BridgeGraph` object has the four tables as fields, and its methods update them in place.
  - A `Scene` object stands for the hinge joints. It holds the thresholds of each beam that still resolves to a live object, and the log of lock and unlock commands sent to hinges.
  - The breadth-first search is a loop proved to visit exactly the cluster and to dequeue each node at most once.
  - The credit and debit loops are proved to produce the state that the `Support` functions prescribe.
- `Game` (game_manager.dfy): the level flow.
  - It has functions for each handler and a `GameManager` class whose methods update its fields in place and are proved to agree with those functions.
  - The invariant says that the level index stays in range on every run of button presses and completion events.

Where the documented intent and the code disagree, the model follows the code:

- **Registering a beam id that is already known** is described as a no-op. The code overwrites the endpoint record, resets the beam's ledger and thresholds, and leaves the beam listed under its old endpoints. `Graph.RelinkBreaksSymmetry` exhibits this, and `Support.RegisterCalibrated` shows that the thresholds stay consistent with the ledger anyway.
- **A new beam is described as inheriting the bonus of a supported cluster it touches**, the same bonus the older beams received (the comment at BridgeGraph.cs:95 says so too). The code applies a bonus only from a supported endpoint of the new beam (BridgeGraph.cs:87-94). A beam hung from an unsupported node of a supported cluster therefore stays at the base thresholds. Likewise, when a new beam joins two clusters, the bonus of a supported node that is not one of its endpoints never crosses over to the other cluster's beams. `Support.RegisterMissesClusterSupport` exhibits the first case.
- **Hinges are described as unlocked once a beam's ledger becomes empty.** The code tests for emptiness before it removes the node from the ledger, so the unlock never fires. See "## Findings".

## Model

| member | source | states |
|---|---|---|
| Graph.Attach | MRPolyBridge/Assets/BridgeGraph.cs:61-73 | the node gains an incident set if it had none, the beam joins it, and every other incidence is kept and none is invented |
| Graph.Detach | MRPolyBridge/Assets/BridgeGraph.cs:107-119 | the beam leaves the node's incident set; the entry survives exactly when beams remain in it; every other node's entry is unchanged |
| Graph.Link | MRPolyBridge/Assets/BridgeGraph.cs:59-76 | the beam's endpoints are (over)written, it becomes incident to both nodes, every earlier incidence is kept, its ledger entry is reset to empty; every other beam's endpoint record and ledger entry, and the supported set, are unchanged |
| Graph.Unlink | MRPolyBridge/Assets/BridgeGraph.cs:102-121 | an unknown beam leaves the registry unchanged; a known beam loses its endpoint record and its ledger entry; the supported set is never touched |
| Graph.EmptyRegistryWellFormed | MRPolyBridge/Assets/BridgeGraph.cs:34-44 | the empty initial tables are well formed (symmetric, pruned, ledger aligned) |
| Graph.LinkPreservesWellFormed | MRPolyBridge/Assets/BridgeGraph.cs:59-76 | registering a beam that is not yet known keeps the registry well formed |
| Graph.RelinkBreaksSymmetry | MRPolyBridge/Assets/BridgeGraph.cs:59-73 | re-registering a known beam under new endpoints leaves it listed under its old endpoints, so the registry is no longer symmetric |
| Graph.UnlinkIncidentAt | MRPolyBridge/Assets/BridgeGraph.cs:107-119 | after unregistering a known beam, a node lists a beam exactly when it did before, except that the removed beam is no longer listed under its two endpoints |
| Graph.UnlinkForgetsBeam | MRPolyBridge/Assets/BridgeGraph.cs:102-121 | unregistering keeps the registry well formed, removes every trace of the beam, and keeps every other incidence in both directions |
| Reachability.IsolatedClusterEmpty | MRPolyBridge/Assets/BridgeGraph.cs:163-168 | a node with no incident-set entry has an empty cluster, so the early return loses nothing |
| Reachability.ClosedContainsCluster | MRPolyBridge/Assets/BridgeGraph.cs:170-204 | any node and beam sets that contain the start and are closed under the walk contain the whole cluster |
| Support.ApplyFromCalibrated | MRPolyBridge/Assets/BridgeGraph.cs:208-234 | applying a node's bonus keeps every live beam at base thresholds plus one bonus per node in its ledger |
| Support.RemoveFromCalibrated | MRPolyBridge/Assets/BridgeGraph.cs:286-315 | removing a node's bonus keeps every live beam at base thresholds plus one bonus per node in its ledger |
| Support.MarkCalibrated | MRPolyBridge/Assets/BridgeGraph.cs:129-137 | marking a node supported keeps the thresholds consistent with the ledger |
| Support.UnmarkCalibrated | MRPolyBridge/Assets/BridgeGraph.cs:144-152 | unmarking a node keeps the thresholds consistent with the ledger |
| Support.RegisterCalibrated | MRPolyBridge/Assets/BridgeGraph.cs:51-97 | registering a beam, even one already known, keeps the thresholds consistent with the ledger |
| Support.UnregisterCalibrated | MRPolyBridge/Assets/BridgeGraph.cs:102-122 | unregistering a beam keeps the thresholds consistent with the ledger |
| Support.ApplyFromKeepsStructure | MRPolyBridge/Assets/BridgeGraph.cs:161-235 | bonus propagation changes neither adjacency table, the supported set, nor which beams have a ledger entry or a live object, and it keeps the registry well formed |
| Support.RemoveFromKeepsStructure | MRPolyBridge/Assets/BridgeGraph.cs:242-316 | bonus removal changes neither adjacency table, the supported set, nor which beams have a ledger entry or a live object, and it keeps the registry well formed |
| Support.MarkKeepsWellFormed | MRPolyBridge/Assets/BridgeGraph.cs:129-137 | marking a node keeps the registry well formed |
| Support.UnmarkKeepsWellFormed | MRPolyBridge/Assets/BridgeGraph.cs:144-152 | unmarking a node keeps the registry well formed |
| Support.RegisterKeepsWellFormed | MRPolyBridge/Assets/BridgeGraph.cs:51-97 | registering a beam that is not yet known, including the bonus propagation, keeps the registry well formed |
| Support.UnregisterKeepsWellFormed | MRPolyBridge/Assets/BridgeGraph.cs:102-122 | unregistering a beam keeps the registry well formed |
| Support.ApplyFromCoversCluster | MRPolyBridge/Assets/BridgeGraph.cs:206-234 | afterwards every live cluster beam with a ledger lists the node; each credited beam gains exactly one bonus and one ledger entry; every other beam, inside or outside the cluster, keeps its ledger and thresholds |
| Support.ApplyFromIdempotent | MRPolyBridge/Assets/BridgeGraph.cs:213-215 | applying the same node's bonus twice is the same as applying it once, so no beam is double-counted |
| Support.RemoveFromCoversCluster | MRPolyBridge/Assets/BridgeGraph.cs:286-315 | afterwards no live cluster beam with a ledger lists the node; each debited beam loses exactly one bonus and one ledger entry; every other beam, inside or outside the cluster, keeps its ledger and thresholds |
| Support.RemoveFromIdempotent | MRPolyBridge/Assets/BridgeGraph.cs:291-313 | removing the same node's bonus twice is the same as removing it once, so no beam loses a bonus twice |
| Support.ApplyThenRemove | MRPolyBridge/Assets/BridgeGraph.cs:286-315 | on an unchanged graph, removing a node's bonus right after applying it restores every ledger and every threshold, if no live beam of the node's cluster listed the node before; ledgers outside the cluster may list it |
| Support.MarkThenUnmark | MRPolyBridge/Assets/BridgeGraph.cs:129-152 | marking and then unmarking an unsupported node on an unchanged graph restores the world exactly, if no live beam of the node's cluster already listed it |
| Support.MarkThenUnmarkIgnoresResidue | MRPolyBridge/Assets/BridgeGraph.cs:244-248 | a stale ledger entry outside the node's cluster, as an early-returning unmark leaves behind, does not disturb the round trip: the world is restored exactly |
| Support.MarkThenUnmarkNeedsFreshLedger | MRPolyBridge/Assets/BridgeGraph.cs:129-152 | the cluster-ledger precondition of the round trip is needed: with a stale ledger entry naming an unsupported node, marking adds no bonus but unmarking removes one, leaving the beam one bonus below its start |
| Support.MarkIdempotent | MRPolyBridge/Assets/BridgeGraph.cs:132-136 | marking twice equals marking once, and unmarking an unsupported node changes nothing |
| Support.RegisterCreditsSupportedEnds | MRPolyBridge/Assets/BridgeGraph.cs:76-94 | a newly registered live beam ends with exactly its supported endpoints in its ledger and with base thresholds plus one bonus per supported endpoint |
| Support.RegisterMissesClusterSupport | MRPolyBridge/Assets/BridgeGraph.cs:87-95 | a new beam hung from an unsupported node of a supported cluster belongs to that cluster, yet its ledger stays empty and it keeps the base thresholds |
| Support.UnmarkOneEndKeepsOther | MRPolyBridge/Assets/BridgeGraph.cs:286-315 | a beam credited by both endpoints keeps exactly one bonus, and only the other endpoint in its ledger, when one endpoint loses its support |
| Support.UnmarkDetachedNodeKeepsBonuses | MRPolyBridge/Assets/BridgeGraph.cs:244-248 | unmarking a node that has lost all its beams takes no bonus back, even from ledgers that still list it |
| Support.RemoveNeverUnlocks | MRPolyBridge/Assets/BridgeGraph.cs:303-313 | with the emptiness test placed before the removal, as written, no beam is ever unlocked |
| Support.UnlockedAfterRemovalIsLastSupport | MRPolyBridge/Assets/BridgeGraph.cs:303-313 | with the test placed after the removal, a beam is unlocked exactly when its ledger goes from non-empty to empty |
| Support.LastSupportLeavesBeamLocked | MRPolyBridge/Assets/BridgeGraph.cs:303-313 | on a concrete bridge, the beam's last support is removed and its ledger becomes empty, yet the as-written test unlocks nothing while the corrected test unlocks it |
| Bridge.BridgeGraph.constructor | MRPolyBridge/Assets/BridgeGraph.cs:34-44 | the registry starts with all four tables empty |
| Bridge.BridgeGraph.RegisterBeam | MRPolyBridge/Assets/BridgeGraph.cs:51-97 | the new registry and thresholds are those of `Support.Register` on the old ones; the commands sent are one lock per beam credited by a supported first endpoint, then one lock per beam credited by a supported second endpoint |
| Bridge.BridgeGraph.RecordBeam | MRPolyBridge/Assets/BridgeGraph.cs:59-84 | the tables become `Link` of the old ones, and a live beam's thresholds are reset to the base values |
| Bridge.BridgeGraph.PropagateIfSupported | MRPolyBridge/Assets/BridgeGraph.cs:87-94 | an endpoint's bonus is applied exactly when that endpoint is supported, sending one lock command per beam it credits; an unsupported endpoint changes nothing and sends nothing |
| Bridge.BridgeGraph.UnregisterBeam | MRPolyBridge/Assets/BridgeGraph.cs:102-122 | the new registry is `Unlink` of the old one |
| Bridge.BridgeGraph.MarkNodeSupported | MRPolyBridge/Assets/BridgeGraph.cs:129-137 | the new world is `Mark` of the old one; a newly supported node sends one lock command per beam it credits, and an already supported node sends none |
| Bridge.BridgeGraph.UnmarkNodeSupported | MRPolyBridge/Assets/BridgeGraph.cs:144-152 | the new world is `Unmark` of the old one; no command is sent |
| Bridge.BridgeGraph.CollectCluster | MRPolyBridge/Assets/BridgeGraph.cs:170-204 | the breadth-first search returns exactly the cluster of the start node; it dequeues the start first, every dequeued node is reachable from it, and no node is dequeued twice |
| Bridge.BridgeGraph.SearchRound | MRPolyBridge/Assets/BridgeGraph.cs:178-203 | one round dequeues the head node, keeps the queue free of duplicates and of already dequeued nodes, and keeps the search explored and closed |
| Bridge.BridgeGraph.VisitIncidentBeams | MRPolyBridge/Assets/BridgeGraph.cs:180-203 | visiting a dequeued node's beams keeps the search's exploration invariant, closes the node, and queues only nodes not visited before, so the queue stays free of duplicates |
| Bridge.BridgeGraph.VisitBeam | MRPolyBridge/Assets/BridgeGraph.cs:183-202 | a beam not visited before is marked visited exactly once, and each of its endpoints not yet seen is marked and queued once |
| Bridge.BridgeGraph.ApplySupportBonusFromNode | MRPolyBridge/Assets/BridgeGraph.cs:161-235 | the new ledger and thresholds are `ApplyFrom` of the old world; exactly one lock command is appended per credited beam |
| Bridge.BridgeGraph.CreditBeams | MRPolyBridge/Assets/BridgeGraph.cs:208-234 | over the visited beams, every live beam whose ledger lacks the node gains the node, one bonus and one lock command; nothing else changes |
| Bridge.BridgeGraph.CreditBeam | MRPolyBridge/Assets/BridgeGraph.cs:210-233 | one beam is credited exactly when it has a ledger without the node and is live; otherwise nothing changes |
| Bridge.BridgeGraph.RemoveSupportBonusFromNode | MRPolyBridge/Assets/BridgeGraph.cs:242-316 | the new ledger and thresholds are `RemoveFrom` of the old world; no command is sent |
| Bridge.BridgeGraph.DebitBeams | MRPolyBridge/Assets/BridgeGraph.cs:286-315 | over the visited beams, every live beam whose ledger lists the node loses the node and one bonus; nothing else changes |
| Bridge.BridgeGraph.DebitBeam | MRPolyBridge/Assets/BridgeGraph.cs:288-314 | one beam is debited exactly when its ledger lists the node and it is live; the unlock test, run on the ledger before the removal, sends nothing |
| Bridge.BridgeGraph.UnlockIfUnsupported | MRPolyBridge/Assets/BridgeGraph.cs:303-307 | an unlock command is sent exactly when the ledger it is given is empty and the beam is live |
| Bridge.BridgeGraph.LockBeamHinges | MRPolyBridge/Assets/BridgeGraph.cs:332-346 | a lock command for the beam is appended exactly when the beam resolves to a live object |
| Bridge.BridgeGraph.UnlockBeamHinges | MRPolyBridge/Assets/BridgeGraph.cs:348-363 | an unlock command for the beam is appended exactly when the beam resolves to a live object |
| Game.SpawnGuard | MRPolyBridge/Assets/GameManager.cs:97-116 | an index outside [0, count) changes nothing; an index inside it spawns exactly that level and leaves the state and index alone |
| Game.PressWhileWaiting | MRPolyBridge/Assets/GameManager.cs:68-73 | pressing while waiting always moves to Playing at the same index, and spawns that level only if the index passes the guard |
| Game.NoLevelsStillPlays | MRPolyBridge/Assets/GameManager.cs:68-73 | with no level prefabs, the first press still moves to Playing, with nothing spawned |
| Game.PressIgnoredWhilePlayingOrFinished | MRPolyBridge/Assets/GameManager.cs:80-90 | pressing while playing or after everything is finished changes nothing |
| Game.CompleteOnlyWhilePlaying | MRPolyBridge/Assets/GameManager.cs:166 | a completion reported outside Playing is ignored |
| Game.CompleteWhilePlaying | MRPolyBridge/Assets/GameManager.cs:164-185 | completing a level while playing gives AllFinished if and only if it was the last level, and LevelComplete if and only if it was not; the index and spawned level are kept |
| Game.PressAfterLevelComplete | MRPolyBridge/Assets/GameManager.cs:190-215 | pressing after a completed level advances the index by exactly one; if that level exists it is spawned and played, otherwise the state stays LevelComplete and nothing is spawned |
| Game.InitialValid | MRPolyBridge/Assets/GameManager.cs:28-32 | the flow after start-up satisfies the flow invariant whenever there is a level |
| Game.StepKeepsValid | MRPolyBridge/Assets/GameManager.cs:64-215 | every handler keeps the flow invariant: index in range, the played level spawned, the last level never in LevelComplete |
| Game.RunKeepsValid | MRPolyBridge/Assets/GameManager.cs:64-215 | every sequence of presses and completions from a valid flow ends in a valid flow |
| Game.AdvanceAlwaysFindsLevel | MRPolyBridge/Assets/GameManager.cs:196-214 | when there is at least one level: on every run from start-up the index stays in [0, count), and a press in LevelComplete always finds a next level to play, so the "beaten every level" branch is never reached |
| Game.GameManager.constructor | MRPolyBridge/Assets/GameManager.cs:28-32 | the manager starts waiting, at level 0, with nothing spawned |
| Game.GameManager.OnStartOrNextPressed | MRPolyBridge/Assets/GameManager.cs:64-92 | the new state, index and spawned level are those of `Game.Press` on the old ones |
| Game.GameManager.SpawnCurrentLevel | MRPolyBridge/Assets/GameManager.cs:97-116 | the new state is that of `Game.Spawn`: refused outside the range, otherwise the current level is spawned |
| Game.GameManager.OnLevelCompleted | MRPolyBridge/Assets/GameManager.cs:164-185 | the new state is that of `Game.Complete` on the old one |
| Game.GameManager.AdvanceToNextLevel | MRPolyBridge/Assets/GameManager.cs:190-215 | the new state is that of `Game.Advance` on the old one |

## Left out

- Engine objects are replaced by integer instance ids: `GetInstanceID`, the `GameObject` keys of the incident sets, and `SnapInteractable`.
- `FindBeamByID` (BridgeGraph.cs:322-331) scans every hinge joint in the scene and returns the object carrying one with the beam's id. It is modelled as membership in the keys of `Scene.hinges`, the beams that still resolve to a live object.
- The thresholds of all hinge joints of a beam are set together in every operation, so they are modelled as one pair per beam.
- Break force and torque are `float` in the program. All configured values are small integers, so they are modelled as `int`; there is no rounding.
- `GetCurrentConfig` only returns the constant configuration. The configuration is the four constants in `Support`.
- The joint-limit values written by `LockBeamHinges` and `UnlockBeamHinges` are left out. Lock sets limits off with min and max 0, and unlock sets limits on with a range of -1 to +1. Each is recorded as a `LockHinges` or `UnlockHinges` command.
- Enumeration order of the `HashSet`s is not specified by the program. The search and the credit and debit loops pick the next element arbitrarily, and the contracts hold for every order. Command logs are therefore stated up to order.
- `Debug.Log` and `Debug.LogError` output is left out.
- A bonus that goes stale after the graph changes is captured only by `Support.UnmarkDetachedNodeKeepsBonuses`, `Support.MarkThenUnmarkNeedsFreshLedger` and `Support.MarkThenUnmarkIgnoresResidue`. A ledger can name a node that is no longer connected, and a later removal will not reach it. No general lemma bounds such residue.
- The game manager's user interface is left out:
  - the button captions, the win panel and the winning text;
  - the level label (`UpdateLevelLabel`);
  - the `Awake` listener wiring;
  - the car-control wiring (`WireUpCarControls`) and the `BridgeWalker` and `LevelEndTrigger` lookups.
- `Instantiate` and `Destroy` of level prefabs are modelled by recording which level index is spawned.
- `ClearAllBridgePieces` calls `BridgeGraph.ClearAll` (GameManager.cs:330). That method is not defined in BridgeGraph.cs, so it is not part of this model.
- `OnLevelCompleted` is invoked by the spawned level's trigger. It is modelled as an event that may arrive at any time; the handler's own guard discards it outside Playing.
- Game.AdvanceAlwaysFindsLevel: holds only when there is at least one level prefab. With none, no level is spawned (GameManager.cs:99-103) and no trigger can report completion, but the model still lets a completion arrive. A run of press, complete, press then reaches the "beaten every level" branch at index 1, which the program cannot reach.
- The remaining scripts of the repository are not part of this model: hand-pinch beam placement, the walker, grid snapping, billboards, delete mode, the garbage can, the level trigger, `SupportTracker` (which calls `UnmarkNodeSupported` when a support is destroyed) and text changing.

## Findings

| source | as written | input that shows it | evidently intended | confidence | as-written member | corrected member |
|---|---|---|---|---|---|---|
| MRPolyBridge/Assets/BridgeGraph.cs:303-313 | the emptiness test that should restore a beam's default hinge limits reads the ledger before the node is removed from it; at that point the ledger still lists the node, so the test is never true | beam 1 on nodes 10 and 11 with ledger {10}, live; node 10 is unmarked: the ledger becomes empty, the bonus is taken off, and no unlock command is sent | unlock the beam when its last supporting node is removed, which means testing the ledger after the removal | high; not executed | Support.LastSupportLeavesBeamLocked | Support.UnlockedAfterRemovalIsLastSupport |

Both halves of the finding are in the `Support` module:
- `Support.UnlockedAsWritten` states the as-written test, and `Support.RemoveNeverUnlocks` proves that it never fires.
- `Support.UnlockedAfterRemoval` is the corrected test, and `Support.UnlockedAfterRemovalIsLastSupport` proves that it fires exactly when a beam loses its last support.

`Bridge.BridgeGraph.DebitBeam` keeps the program's order of operations, so its contract shows that no unlock command is sent. The lemmas above are what say whether that behaviour is right.
