/**
 * The level flow of the game manager: a four-state machine over a zero-based
 * level index into a fixed list of level prefabs.  The functions here say what
 * each handler does to the state, the index and the spawned level; the class
 * below performs the same updates in place and is proved to agree with them.
 * Button captions, panels, control wiring and instantiation are not modelled.
 */
module Game {

  datatype Option<T> = None | Some(value: T)

  datatype GameState = WaitingToStart | Playing | LevelComplete | AllFinished

  /**
   * The manager's flow state: the game state, the current level index and
   * the index of the level instance currently spawned, if any.
   */
  datatype Flow = Flow(state: GameState, index: int, spawned: Option<int>)

  /** The state after Awake: waiting, at level 0, nothing spawned. */
  const Initial := Flow(WaitingToStart, 0, None)

  /** SpawnCurrentLevel: refuses an index outside [0, count); otherwise the level at the index replaces any previous one. */
  function Spawn(f: Flow, count: nat): Flow
  {
    if f.index < 0 || f.index >= count then f
    else f.(spawned := Some(f.index))
  }

  /** AdvanceToNextLevel: one level on; spawn it and play it if it exists. */
  function Advance(f: Flow, count: nat): Flow
  {
    var g := f.(index := f.index + 1);
    if g.index < count then Spawn(g, count).(state := Playing) else g
  }

  /** OnStartOrNextPressed. */
  function Press(f: Flow, count: nat): Flow
  {
    match f.state
    case WaitingToStart => Spawn(f, count).(state := Playing)
    case LevelComplete => Advance(f, count)
    case AllFinished => f
    case Playing => f
  }

  /** OnLevelCompleted. */
  function Complete(f: Flow, count: nat): Flow
  {
    if f.state != Playing then f
    else if f.index == count - 1 then f.(state := AllFinished)
    else f.(state := LevelComplete)
  }

  /** The two things that can happen to the manager: the button is pressed, or the spawned level reports completion. */
  datatype Event = Pressed | Completed

  function Step(f: Flow, e: Event, count: nat): Flow
  {
    match e
    case Pressed => Press(f, count)
    case Completed => Complete(f, count)
  }

  /** The flow after a sequence of events, first event first. */
  function Run(f: Flow, events: seq<Event>, count: nat): Flow
    decreases |events|
  {
    if events == [] then f else Run(Step(f, events[0], count), events[1..], count)
  }

  /**
   * What holds in every reachable flow when there is at least one level: the
   * index is in range, a level is spawned whenever one is being played, and
   * the last level is never in LevelComplete.
   */
  ghost predicate Valid(f: Flow, count: nat)
  {
    && 0 <= f.index < count
    && (f.state == WaitingToStart ==> f.index == 0 && f.spawned == None)
    && (f.state == Playing ==> f.spawned == Some(f.index))
    && (f.state == LevelComplete ==> f.index < count - 1 && f.spawned == Some(f.index))
    && (f.state == AllFinished ==> f.index == count - 1 && f.spawned == Some(f.index))
  }

  /** The guard in SpawnCurrentLevel: an out-of-range index changes nothing; an in-range one spawns exactly that level. */
  lemma SpawnGuard(f: Flow, count: nat)
    ensures f.index < 0 || f.index >= count ==> Spawn(f, count) == f
    ensures 0 <= f.index < count ==>
      Spawn(f, count).spawned == Some(f.index) && Spawn(f, count).state == f.state && Spawn(f, count).index == f.index
  {
  }

  /**
   * Pressing while waiting always moves to Playing at the same index; the
   * level is spawned only when the index passes the guard.
   */
  lemma PressWhileWaiting(f: Flow, count: nat)
    requires f.state == WaitingToStart
    ensures var r := Press(f, count);
      && r.state == Playing && r.index == f.index
      && r.spawned == (if 0 <= f.index < count then Some(f.index) else f.spawned)
  {
  }

  /** With no levels configured, the first press still moves to Playing, with nothing spawned. */
  lemma NoLevelsStillPlays()
    ensures Press(Initial, 0) == Flow(Playing, 0, None)
  {
  }

  /** Pressing while playing or after all levels are finished changes nothing. */
  lemma PressIgnoredWhilePlayingOrFinished(f: Flow, count: nat)
    requires f.state == Playing || f.state == AllFinished
    ensures Press(f, count) == f
  {
  }

  /** Completion is only heard while playing. */
  lemma CompleteOnlyWhilePlaying(f: Flow, count: nat)
    requires f.state != Playing
    ensures Complete(f, count) == f
  {
  }

  /** Completing the last level finishes the game; completing any other level waits for the button. */
  lemma CompleteWhilePlaying(f: Flow, count: nat)
    requires f.state == Playing
    ensures var r := Complete(f, count);
      && r.index == f.index && r.spawned == f.spawned
      && (r.state == AllFinished <==> f.index == count - 1)
      && (r.state == LevelComplete <==> f.index != count - 1)
  {
  }

  /**
   * Pressing after a completed level moves the index on by exactly one; if
   * that level exists it is spawned and played, otherwise the state stays
   * LevelComplete and nothing is spawned.
   */
  lemma PressAfterLevelComplete(f: Flow, count: nat)
    requires f.state == LevelComplete
    ensures var r := Press(f, count);
      && r.index == f.index + 1
      && (r.index < count ==> r.state == Playing && (0 <= r.index ==> r.spawned == Some(r.index)))
      && (r.index >= count ==> r.state == LevelComplete && r.spawned == f.spawned)
  {
  }

  /** The flow after Awake is valid whenever a level exists. */
  lemma InitialValid(count: nat)
    requires count > 0
    ensures Valid(Initial, count)
  {
  }

  /** Every handler keeps the flow valid. */
  lemma StepKeepsValid(f: Flow, e: Event, count: nat)
    requires Valid(f, count)
    ensures Valid(Step(f, e, count), count)
  {
    if e == Pressed && f.state == LevelComplete {
      assert f.index + 1 < count;
    }
  }

  /** Every sequence of events from a valid flow ends in a valid flow. */
  lemma {:induction false} RunKeepsValid(f: Flow, events: seq<Event>, count: nat)
    requires Valid(f, count)
    ensures Valid(Run(f, events, count), count)
    decreases |events|
  {
    if events != [] {
      StepKeepsValid(f, events[0], count);
      RunKeepsValid(Step(f, events[0], count), events[1..], count);
    }
  }

  /**
   * In every reachable flow the index stays below the level count, and a
   * press in LevelComplete always finds a next level: the "all levels beaten"
   * branch of AdvanceToNextLevel is never taken.
   */
  lemma AdvanceAlwaysFindsLevel(events: seq<Event>, count: nat)
    requires count > 0
    ensures var f := Run(Initial, events, count);
      && 0 <= f.index <= count - 1
      && (f.state == LevelComplete ==> f.index + 1 < count && Press(f, count).state == Playing)
  {
    InitialValid(count);
    RunKeepsValid(Initial, events, count);
  }

  /** The game manager as the program runs it: its fields are updated in place by the handlers. */
  class GameManager {
    /** The number of level prefabs. */
    const levelCount: nat
    var state: GameState
    var levelIndex: int
    /** The index of the spawned level root, if any. */
    var levelInstance: Option<int>

    ghost function Current(): Flow
      reads this
    {
      Flow(state, levelIndex, levelInstance)
    }

    constructor (levelCount: nat)
      ensures this.levelCount == levelCount && Current() == Initial
    {
      this.levelCount := levelCount;
      state := WaitingToStart;
      levelIndex := 0;
      levelInstance := None;
    }

    method OnStartOrNextPressed()
      modifies this
      ensures Current() == Press(old(Current()), levelCount)
    {
      match state {
        case WaitingToStart =>
          SpawnCurrentLevel();
          state := Playing;
        case LevelComplete =>
          AdvanceToNextLevel();
        case AllFinished =>
        case Playing =>
      }
    }

    method SpawnCurrentLevel()
      modifies this
      ensures Current() == Spawn(old(Current()), levelCount)
    {
      if levelIndex < 0 || levelIndex >= levelCount {
        return;
      }
      levelInstance := Some(levelIndex);
    }

    method OnLevelCompleted()
      modifies this
      ensures Current() == Complete(old(Current()), levelCount)
    {
      if state != Playing {
        return;
      }
      state := LevelComplete;
      if levelIndex == levelCount - 1 {
        state := AllFinished;
      }
    }

    method AdvanceToNextLevel()
      modifies this
      ensures Current() == Advance(old(Current()), levelCount)
    {
      levelIndex := levelIndex + 1;
      if levelIndex < levelCount {
        SpawnCurrentLevel();
        state := Playing;
      }
    }
  }
}
