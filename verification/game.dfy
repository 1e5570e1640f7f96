/** The state the game loop of `main` keeps between frames, as a class
    whose methods are the loop's steps: building a level, starting and
    finishing a move, the collision step, Divine-Eyes activation and its
    animation, and the exit that starts the next level. The randomness a
    level consumes comes in as `LevelDraws`. */
module Game {
  import opened Grid
  import opened Settings
  import opened Pathfinding
  import opened MazeGen
  import opened Placement
  import opened Rules

  /** The Divine-Eyes effect: off (`None` in the source), the orb flying
      along the path, or the path shown and kept up to date. */
  datatype DivineState = Idle | Animating | Sustain

  /** The random draws one level consumes: the carver's choices, the two
      boundary picks, and one roll stream each for items, emitters and
      orbs. */
  datatype LevelDraws = LevelDraws(
    carve: nat -> nat, exitPick: nat, entrancePick: nat,
    itemRolls: nat -> real, emitterRolls: nat -> real, orbRolls: nat -> real)

  /** Everything a level is built from. */
  datatype Level = Level(
    settings: MapSettings, maze: array2<int>, entrance: Cell, exitCell: Cell,
    traps: seq<Cell>, healingStations: seq<Cell>, emitters: seq<Emitter>, powerups: seq<Cell>)

  /** Every cell of `cells` is open and neither the entrance nor the exit. */
  ghost predicate Placed(m: array2<int>, entrance: Cell, exitCell: Cell, cells: seq<Cell>)
    reads m
  {
    forall p :: p in cells ==> IsOpen(m, p) && p != entrance && p != exitCell
  }

  /** An emitter sits on an interior wall and faces two open cells. */
  ghost predicate Mounted(m: array2<int>, e: Emitter)
    reads m
  {
    1 <= e.pos.0 < m.Length0 - 1 && 1 <= e.pos.1 < m.Length1 - 1 && m[e.pos.0, e.pos.1] == WALL &&
    IsOpen(m, (e.pos.0 + e.dir.0, e.pos.1 + e.dir.1)) &&
    IsOpen(m, (e.pos.0 + 2 * e.dir.0, e.pos.1 + 2 * e.dir.1))
  }

  /** What holds of a level the game builds for `score`: its settings and
      size, the two openings joined by a walk, and where its items lie. */
  ghost predicate LevelSound(lv: Level, score: int)
    reads lv.maze
  {
    var m := lv.maze;
    lv.settings == GetMapSettings(score) &&
    m.Length0 == lv.settings.height && m.Length1 == lv.settings.width &&
    lv.entrance.0 == m.Length0 - 1 && lv.exitCell.0 == 0 &&
    IsOpen(m, lv.entrance) && IsOpen(m, lv.exitCell) &&
    Reachable(m, lv.entrance, lv.exitCell) &&
    Placed(m, lv.entrance, lv.exitCell, lv.traps) &&
    Placed(m, lv.entrance, lv.exitCell, lv.healingStations) &&
    Placed(m, lv.entrance, lv.exitCell, lv.powerups) &&
    (forall p :: p in lv.traps ==> p !in lv.healingStations) &&
    (forall e :: e in lv.emitters ==> Mounted(m, e))
  }

  /** Using up a healing station keeps a level sound: the stations left
      still lie on open cells away from the openings and off the traps. */
  lemma StationUseKeepsSound(lv: Level, score: int, pos: Cell, health: int)
    requires LevelSound(lv, score)
    ensures LevelSound(lv.(healingStations := HealStep(pos, lv.healingStations, health).stations), score)
  {
  }

  /** Picking up an orb keeps a level sound. */
  lemma OrbUseKeepsSound(lv: Level, score: int, pos: Cell, inventory: int)
    requires LevelSound(lv, score)
    ensures LevelSound(lv.(powerups := PickupStep(pos, lv.powerups, inventory).powerups), score)
  {
  }

  /** The items of `lv` are the ones the three placement passes choose on
      its maze with the draws `d`. */
  ghost predicate Planned(lv: Level, d: LevelDraws)
    reads lv.maze
  {
    lv.traps == Traps(lv.maze, lv.entrance, lv.exitCell, d.itemRolls, lv.settings.trapProb) &&
    lv.healingStations ==
      HealingStations(lv.maze, lv.entrance, lv.exitCell, d.itemRolls, lv.settings.trapProb, HEAL_PROBABILITY) &&
    lv.emitters == EmitterPlan(lv.maze, d.emitterRolls, lv.settings.projChance) &&
    lv.powerups == DivinePowerups(lv.maze, lv.settings.width, lv.entrance, lv.exitCell, d.orbRolls)
  }

  /** While Divine Eyes is on its path is a walk ending at the exit; the
      orb's progress is in `[0, 1)` while it flies and exactly 1 after. */
  ghost predicate DivineSound(m: array2<int>, exitCell: Cell, state: DivineState, path: seq<Cell>, progress: real)
    reads m
  {
    (state != Idle ==> path != [] && IsWalk(m, path[0], exitCell, path)) &&
    (state == Animating ==> 0.0 <= progress < 1.0) &&
    (state == Sustain ==> progress == 1.0)
  }

  /** The values of every variable of a `Session`, as one value: the state
      before and after each phase of a frame. */
  datatype Snap = Snap(
    score: int, health: int, level: Level, player: Cell,
    animating: bool, animStart: int, target: Cell,
    lastDamaged: Option<Cell>, noCollision: bool,
    divineInventory: int, divineState: DivineState, divinePath: seq<Cell>, divineProgress: real)

  /** The key events of the event loop that change the modelled state: the
      cheats `n`, `h`, `l`, `o` and the Divine-Eyes key `p`. */
  datatype KeyEvent = CollisionKey | HealthKey | LevelKey | OrbKey | DivineKey

  /** How many of `events` are `e`. */
  function Count(events: seq<KeyEvent>, e: KeyEvent): nat {
    if events == [] then 0
    else Count(events[..|events| - 1], e) + (if events[|events| - 1] == e then 1 else 0)
  }

  /** Divine-Eyes activation, from `s` to `t`: with the effect off, an orb
      held and the exit reachable, an orb is spent and the animation starts
      on a path from the player to the exit; otherwise nothing changes. */
  ghost predicate Activated(s: Snap, t: Snap)
    reads s.level.maze
  {
    if s.divineState == Idle && s.divineInventory > 0 && Reachable(s.level.maze, s.player, s.level.exitCell)
    then t == s.(divineInventory := s.divineInventory - 1, divineState := Animating,
                 divineProgress := 0.0, divinePath := t.divinePath) &&
         IsWalk(s.level.maze, s.player, s.level.exitCell, t.divinePath)
    else t == s
  }

  /** The level transition, from `s` to `t`: one more point, a level sound
      for the new score whose items are planned from the draws `d`, the player on its
      entrance, the trap marker and Divine Eyes reset, all else kept. */
  ghost predicate LevelChanged(s: Snap, t: Snap, d: LevelDraws)
    reads t.level.maze
  {
    t == s.(score := s.score + 1, level := t.level, player := t.level.entrance,
            lastDamaged := None, divineState := Idle) &&
    LevelSound(t.level, t.score) && Planned(t.level, d)
  }

  /** One key event, from `s` to `t`; a level cheat builds its level from
      `d`. */
  ghost predicate EventStep(s: Snap, t: Snap, e: KeyEvent, d: LevelDraws)
    reads s.level.maze, t.level.maze
  {
    match e
    case CollisionKey => t == s.(noCollision := !s.noCollision)
    case HealthKey => t == s.(health := s.health + 50)
    case LevelKey => LevelChanged(s, t, d)
    case OrbKey =>
      t == s.(divineInventory := if s.divineInventory < MAX_DIVINE_EYES then s.divineInventory + 1
                                 else s.divineInventory)
    case DivineKey => Activated(s, t)
  }

  /** `trace` runs through the key events of a frame in order: each state is
      the previous one after one event; the `i`-th event builds a level from
      `levels(i)`. */
  ghost predicate EventTrace(trace: seq<Snap>, events: seq<KeyEvent>, levels: nat -> LevelDraws)
    reads set i | 0 <= i < |trace| :: trace[i].level.maze
  {
    |trace| == |events| + 1 &&
    forall i :: 0 <= i < |events| ==> EventStep(trace[i], trace[i + 1], events[i], levels(i))
  }

  /** A trace of the first `i` events, extended by one more event step, is a
      trace of the first `i + 1`. */
  lemma TraceExtend(trace: seq<Snap>, events: seq<KeyEvent>, i: nat, levels: nat -> LevelDraws, t: Snap)
    requires i < |events| && EventTrace(trace, events[..i], levels)
    requires EventStep(trace[i], t, events[i], levels(i))
    ensures EventTrace(trace + [t], events[..i + 1], levels)
  {
    var trace', events' := trace + [t], events[..i + 1];
    forall j | 0 <= j < |events'|
      ensures EventStep(trace'[j], trace'[j + 1], events'[j], levels(j))
    {
      if j < i {
        assert trace'[j] == trace[j] && trace'[j + 1] == trace[j + 1] && events'[j] == events[..i][j];
      }
    }
  }

  /** The movement block, from `s` to `t`: with no step in progress an
      accepted move starts one at `now`; a step in progress that is
      `ANIM_DURATION` old ends with the player on its target. */
  ghost predicate Moved(s: Snap, t: Snap, keys: Keys, now: int)
    reads s.level.maze
  {
    var move := AcceptedMove(s.level.maze, s.player, keys, s.noCollision);
    var started := if !s.animating && move.Some?
                   then s.(animating := true, animStart := now, target := move.value) else s;
    if started.animating && (now - started.animStart) as real / ANIM_DURATION as real >= 1.0
    then t == started.(animating := false, player := started.target)
    else t == started
  }

  /** The collision block at the player's cell: the trap rule, then the
      healing rule, then the pickup rule. */
  function Collided(s: Snap, critRoll: real): Snap {
    var trap := TrapStep(s.player, s.level.traps, s.health, s.lastDamaged, critRoll, s.level.settings.critChance);
    var heal := HealStep(s.player, s.level.healingStations, trap.health);
    var pickup := PickupStep(s.player, s.level.powerups, s.divineInventory);
    s.(health := heal.health, lastDamaged := trap.lastDamaged,
       level := s.level.(healingStations := heal.stations, powerups := pickup.powerups),
       divineInventory := pickup.inventory)
  }

  /** The path refresh of a sustained Divine-Eyes effect, from `s` to `t`:
      when the effect is sustained and the exit is reachable, the path
      becomes a fresh walk from the player to the exit; otherwise nothing
      changes. The effect block and the drawing block each do this. */
  ghost predicate Refreshed(s: Snap, t: Snap)
    reads s.level.maze
  {
    if s.divineState == Sustain && Reachable(s.level.maze, s.player, s.level.exitCell)
    then t == s.(divinePath := t.divinePath) && IsWalk(s.level.maze, s.player, s.level.exitCell, t.divinePath)
    else t == s
  }

  /** One frame of the Divine-Eyes effect, `dt` milliseconds long, from `s`
      to `t`: the flying orb advances and arrives at progress 1, keeping its
      path; in a later frame, once it has arrived, the path is refreshed. */
  ghost predicate Advanced(s: Snap, t: Snap, dt: int)
    reads s.level.maze
  {
    match s.divineState
    case Idle => t == s
    case Animating =>
      var p := s.divineProgress + dt as real / DIVINE_ANIM_DURATION as real;
      if p >= 1.0 then t == s.(divineState := Sustain, divineProgress := 1.0)
      else t == s.(divineProgress := p)
    case Sustain => Refreshed(s, t)
  }

  /** In the frame where the orb arrives, the drawing block already
      refreshes the path: it ends as a walk from where the player now
      stands, not from where the effect was activated. */
  lemma ArrivalRefreshes(c: Snap, a: Snap, t: Snap, dt: int)
    requires c.divineState == Animating && c.divineProgress + dt as real / DIVINE_ANIM_DURATION as real >= 1.0
    requires Advanced(c, a, dt) && Refreshed(a, t)
    requires Reachable(c.level.maze, c.player, c.level.exitCell)
    ensures t.divineState == Sustain && t.divineProgress == 1.0
    ensures IsWalk(c.level.maze, c.player, c.level.exitCell, t.divinePath)
  {
  }

  /** The rest of a frame, from `s` to `t`: collisions (with no step in
      progress and collisions on), then the exit check, which builds the
      next level from `d`, then the Divine-Eyes effect. After a level change
      the effect is off, so it does nothing. */
  ghost predicate Resolved(s: Snap, t: Snap, dt: int, critRoll: real, d: LevelDraws)
    reads s.level.maze, t.level.maze
  {
    var c := if !s.animating && !s.noCollision then Collided(s, critRoll) else s;
    if !c.animating && c.player == c.level.exitCell then LevelChanged(c, t, d)
    else Advanced(c, t, dt)
  }

  /** What one key event does to the tallied fields: the score rises by one
      for a level cheat, health by fifty for a health cheat, the collision
      flag flips for a toggle, a step in progress is left alone and the
      inventory stays within its cap. */
  predicate Tallied(s: Snap, t: Snap, e: KeyEvent) {
    t.score == s.score + (if e == LevelKey then 1 else 0) &&
    t.health == s.health + (if e == HealthKey then 50 else 0) &&
    t.noCollision == (if e == CollisionKey then !s.noCollision else s.noCollision) &&
    t.animating == s.animating && t.target == s.target && t.animStart == s.animStart &&
    (0 <= s.divineInventory <= MAX_DIVINE_EYES ==> 0 <= t.divineInventory <= MAX_DIVINE_EYES)
  }

  /** Every key event step keeps the tally. */
  lemma StepTally(s: Snap, t: Snap, e: KeyEvent, d: LevelDraws)
    requires EventStep(s, t, e, d)
    ensures Tallied(s, t, e)
  {
  }

  /** Over a run of key events that each keep the tally the score rises by
      the level cheats, health by fifty per health cheat, the collision flag
      flips once per toggle, a step in progress is left alone, and the
      inventory stays within its cap. */
  lemma {:induction false} EventTally(trace: seq<Snap>, events: seq<KeyEvent>)
    requires |trace| == |events| + 1
    requires forall i :: 0 <= i < |events| ==> Tallied(trace[i], trace[i + 1], events[i])
    requires 0 <= trace[0].divineInventory <= MAX_DIVINE_EYES
    ensures var first, last := trace[0], trace[|events|];
      last.score == first.score + Count(events, LevelKey) &&
      last.health == first.health + 50 * Count(events, HealthKey) &&
      (last.noCollision <==> (first.noCollision <==> Count(events, CollisionKey) % 2 == 0)) &&
      last.animating == first.animating && last.target == first.target && last.animStart == first.animStart &&
      0 <= last.divineInventory <= MAX_DIVINE_EYES
    decreases |events|
  {
    if events != [] {
      var n := |events|;
      var front := events[..n - 1];
      forall i | 0 <= i < |front|
        ensures Tallied(trace[..n][i], trace[..n][i + 1], front[i])
      {
        assert Tallied(trace[i], trace[i + 1], events[i]);
      }
      EventTally(trace[..n], front);
      assert Tallied(trace[n - 1], trace[n], events[n - 1]);
    }
  }

  /** Over the key events of a frame the tally holds: see `EventTally`. */
  lemma TraceTally(trace: seq<Snap>, events: seq<KeyEvent>, levels: nat -> LevelDraws)
    requires EventTrace(trace, events, levels)
    ensures forall i :: 0 <= i < |events| ==> Tallied(trace[i], trace[i + 1], events[i])
  {
    forall i | 0 <= i < |events|
      ensures Tallied(trace[i], trace[i + 1], events[i])
    {
      StepTally(trace[i], trace[i + 1], events[i], levels(i));
    }
  }

  /** The rest of a frame raises the score by at most one, and by one
      exactly when it puts the player on the entrance of a new level. */
  lemma ResolvedScore(s: Snap, t: Snap, dt: int, critRoll: real, d: LevelDraws)
    requires Resolved(s, t, dt, critRoll, d)
    ensures t.score == s.score || (t.score == s.score + 1 && t.player == t.level.entrance)
    ensures t.score == s.score + 1 ==> Planned(t.level, d) && LevelSound(t.level, t.score)
  {
  }

  /** A whole frame: the key events, then the movement block, then the
      rest. The score rises by the level cheats of the frame and by at most
      one more, from the exit. */
  lemma FrameTally(s: Snap, t: Snap, trace: seq<Snap>, events: seq<KeyEvent>, levels: nat -> LevelDraws,
                   moved: Snap, resolved: Snap, keys: Keys, now: int, dt: int, critRoll: real, d: LevelDraws)
    requires 0 <= s.divineInventory <= MAX_DIVINE_EYES
    requires EventTrace(trace, events, levels) && trace[0] == s
    requires Moved(trace[|events|], moved, keys, now) && Resolved(moved, resolved, dt, critRoll, d)
    requires Refreshed(resolved, t)
    ensures exists trace': seq<Snap>, moved': Snap, resolved': Snap ::
      EventTrace(trace', events, levels) && trace'[0] == s &&
      Moved(trace'[|events|], moved', keys, now) && Resolved(moved', resolved', dt, critRoll, d) &&
      Refreshed(resolved', t)
    ensures s.score + Count(events, LevelKey) <= t.score <= s.score + Count(events, LevelKey) + 1
  {
    TraceTally(trace, events, levels);
    EventTally(trace, events);
    ResolvedScore(moved, resolved, dt, critRoll, d);
  }

  /** The level set-up block of `main` (run at start, at the exit and by the
      level cheat): settings for the score, a carved maze with its two
      openings, then traps and healing stations, emitters and orbs. */
  method MakeLevel(score: int, d: LevelDraws) returns (lv: Level)
    ensures fresh(lv.maze) && LevelSound(lv, score)
    ensures Planned(lv, d)
  {
    var s := GetMapSettings(score);
    SettingsSizeOdd(score);
    var maze := GenerateMaze(s.width, s.height, d.carve);
    ghost var carved := OpenCells(maze);
    OpenCellsAreOpen(maze);
    forall p | p in carved
      ensures exists path :: SetWalk(carved, (1, 1), p, path)
    {
      ConnectedAsSet(maze, p);
    }
    var entrance, exitCell := AddEntranceExit(maze, d.exitPick, d.entrancePick);
    EntranceReachesExit(maze, carved, entrance, exitCell);
    OpenCellsAreOpen(maze);
    var traps, healingStations := GenerateItems(maze, entrance, exitCell, s.trapProb, HEAL_PROBABILITY, d.itemRolls);
    ItemsPlacement(maze, entrance, exitCell, d.itemRolls, s.trapProb, HEAL_PROBABILITY);
    var emitters := GenerateProjectileTraps(maze, s.projChance, d.emitterRolls);
    forall e | e in emitters
      ensures Mounted(maze, e)
    {
      EmitterShape(maze, d.emitterRolls, s.projChance, e);
    }
    var powerups := PlaceDivinePowerups(maze, s.width, entrance, exitCell, d.orbRolls);
    PowerupPlacement(maze, s.width, entrance, exitCell, d.orbRolls);
    lv := Level(s, maze, entrance, exitCell, traps, healingStations, emitters, powerups);
  }

  /** The variables of `main` that outlive a frame. The level's variables
      (maze, openings, traps, stations, emitters, orbs, settings) are kept
      together as one `Level`, since every level change replaces them all. */
  class Session {
    var score: int
    var health: int
    var level: Level
    /** `player_grid`: the cell the player stands on. */
    var player: Cell
    /** A step in progress from `player` to `target`, begun at `animStart`. */
    var animating: bool
    var animStart: int
    var target: Cell
    var lastDamaged: Option<Cell>
    var noCollision: bool
    var divineInventory: int
    var divineState: DivineState
    var divinePath: seq<Cell>
    var divineProgress: real

    /** The level is one the game builds for the score; the inventory is
        within its cap; while Divine Eyes is on, its path is a walk through
        open cells ending at the exit, and the orb's progress is in `[0, 1)`
        while it flies and exactly 1 once it has arrived. */
    ghost predicate Valid()
      reads this, level.maze
    {
      0 <= score && LevelSound(level, score) &&
      0 <= divineInventory <= MAX_DIVINE_EYES &&
      DivineSound(level.maze, level.exitCell, divineState, divinePath, divineProgress)
    }

    /** The session's variables as one value. */
    function Snapshot(): Snap
      reads this
    {
      Snap(score, health, level, player, animating, animStart, target, lastDamaged, noCollision,
           divineInventory, divineState, divinePath, divineProgress)
    }

    /** The start of `main`: score 0, full health, nothing collected, the
        player on the entrance of the first level. */
    constructor (d: LevelDraws)
      ensures Valid() && fresh(level.maze) && Planned(level, d)
      ensures score == 0 && health == PLAYER_START_HEALTH && player == level.entrance
      ensures !animating && animStart == 0 && target == level.entrance && lastDamaged == None && !noCollision
      ensures divineInventory == 0 && divineState == Idle && divinePath == [] && divineProgress == 0.0
    {
      var lv := MakeLevel(0, d);
      score, health, level := 0, PLAYER_START_HEALTH, lv;
      player, animating, animStart, target := lv.entrance, false, 0, lv.entrance;
      lastDamaged, noCollision := None, false;
      divineInventory, divineState, divinePath, divineProgress := 0, Idle, [], 0.0;
    }

    /** The move acceptance test (when no step is in progress): a held
        arrow key starts a step toward its cell if the grid accepts it. */
    method StartMove(keys: Keys, now: int)
      requires Valid()
      modifies this`animating, this`animStart, this`target
      ensures Valid()
      ensures var move := AcceptedMove(level.maze, old(player), keys, noCollision);
        if !old(animating) && move.Some?
        then animating && target == move.value && animStart == now
        else animating == old(animating) && target == old(target) && animStart == old(animStart)
    {
      if !animating {
        var newGrid := MoveTarget(player, keys);
        if newGrid != player {
          var maze := level.maze;
          if noCollision || (0 <= newGrid.0 < maze.Length0 && 0 <= newGrid.1 < maze.Length1 &&
                             maze[newGrid.0, newGrid.1] == OPEN) {
            animating := true;
            animStart := now;
            target := newGrid;
          }
        }
      }
    }

    /** The end of a step: once `ANIM_DURATION` milliseconds have passed the
        player stands on the target. */
    method FinishMove(now: int)
      requires Valid()
      modifies this`animating, this`player
      ensures Valid()
      ensures if old(animating) && (now - animStart) as real / ANIM_DURATION as real >= 1.0
        then !animating && player == old(target)
        else animating == old(animating) && player == old(player)
    {
      if animating {
        var t := (now - animStart) as real / ANIM_DURATION as real;
        if t >= 1.0 {
          animating := false;
          player := target;
        }
      }
    }

    /** The collision step, run when no step is in progress and collisions
        are on: the trap rule, then the healing rule, then the pickup rule,
        all at the player's cell. `critRoll` is the roll the trap rule
        draws when it hurts. */
    method Collide(critRoll: real)
      requires Valid()
      modifies this`health, this`lastDamaged, this`level, this`divineInventory
      ensures Valid()
      ensures Snapshot() == if !old(animating) && !old(noCollision) then Collided(old(Snapshot()), critRoll)
                            else old(Snapshot())
    {
      if !animating && !noCollision {
        TrapCheck(critRoll);
        HealCheck();
        PickupCheck();
      }
    }

    /** The trap block of the collision step. */
    method TrapCheck(critRoll: real)
      requires Valid()
      modifies this`health, this`lastDamaged
      ensures Valid()
      ensures var trap := TrapStep(player, level.traps, old(health), old(lastDamaged), critRoll, level.settings.critChance);
        health == trap.health && lastDamaged == trap.lastDamaged
    {
      if player in level.traps {
        if lastDamaged != Some(player) {
          var damage := if critRoll < level.settings.critChance then TrapDamage(health, true) else TRAP_DAMAGE;
          health := health - damage;
          lastDamaged := Some(player);
        }
      } else {
        lastDamaged := None;
      }
    }

    /** The healing block of the collision step. */
    method HealCheck()
      requires Valid()
      modifies this`health, this`level
      ensures Valid()
      ensures var heal := HealStep(player, old(level).healingStations, old(health));
        health == heal.health && level == old(level).(healingStations := heal.stations)
    {
      StationUseKeepsSound(level, score, player, health);
      if player in level.healingStations {
        health := Healed(health);
        level := level.(healingStations := RemoveFirst(level.healingStations, player));
      }
    }

    /** The Divine-Eyes pickup block of the collision step. */
    method PickupCheck()
      requires Valid()
      modifies this`divineInventory, this`level
      ensures Valid()
      ensures var pickup := PickupStep(player, old(level).powerups, old(divineInventory));
        divineInventory == pickup.inventory && level == old(level).(powerups := pickup.powerups)
    {
      ghost var pickup := PickupStep(player, level.powerups, divineInventory);
      OrbUseKeepsSound(level, score, player, divineInventory);
      if player in level.powerups {
        if divineInventory < MAX_DIVINE_EYES {
          divineInventory := divineInventory + 1;
        }
        level := level.(powerups := RemoveFirst(level.powerups, player));
      }
      assert divineInventory == pickup.inventory && level == old(level).(powerups := pickup.powerups);
    }

    /** Divine-Eyes activation (key `p`): with the effect off and an orb in
        the inventory, a path from the player to the exit is searched; only
        when one exists is an orb spent and the animation started. */
    method ActivateDivineEyes()
      requires Valid()
      modifies this`divineInventory, this`divineState, this`divineProgress, this`divinePath
      ensures Valid() && Activated(old(Snapshot()), Snapshot())
    {
      if divineState == Idle && divineInventory > 0 {
        var path := FindPath(level.maze, player, level.exitCell);
        if path != [] {
          divineInventory := divineInventory - 1;
          divineState := Animating;
          divineProgress := 0.0;
          divinePath := path;
        }
      }
    }

    /** The Divine-Eyes cheat (key `o`): one more orb, up to the cap. */
    method GrantDivineEyes()
      requires Valid()
      modifies this`divineInventory
      ensures Valid()
      ensures divineInventory == if old(divineInventory) < MAX_DIVINE_EYES then old(divineInventory) + 1 else old(divineInventory)
    {
      if divineInventory < MAX_DIVINE_EYES {
        divineInventory := divineInventory + 1;
      }
    }

    /** One frame of the Divine-Eyes effect, `dt` milliseconds long: the orb
        advances and arrives at progress 1; once arrived, the path is
        recomputed from the player and replaced when one is found. */
    method AdvanceDivineEyes(dt: int)
      requires Valid() && dt >= 0
      modifies this`divineState, this`divineProgress, this`divinePath
      ensures Valid() && Advanced(old(Snapshot()), Snapshot(), dt)
    {
      if divineState == Animating {
        divineProgress := divineProgress + dt as real / DIVINE_ANIM_DURATION as real;
        if divineProgress >= 1.0 {
          divineProgress := 1.0;
          divineState := Sustain;
        }
      } else if divineState == Sustain {
        RefreshPath();
      }
    }

    /** The path refresh of a sustained effect: a fresh search from the
        player, kept when it finds the exit. */
    method RefreshPath()
      requires Valid()
      modifies this`divinePath
      ensures Valid() && Refreshed(old(Snapshot()), Snapshot())
    {
      if divineState == Sustain {
        var newPath := FindPath(level.maze, player, level.exitCell);
        if newPath != [] {
          divinePath := newPath;
        }
      }
    }

    /** The level transition (at the exit, and the level cheat `l`): the
        score goes up, a new level is built for it, the player is put on its
        entrance, and the trap marker and Divine Eyes are reset. Health,
        inventory and a step in progress carry over. */
    method NewLevel(d: LevelDraws)
      requires Valid()
      modifies this`score, this`level, this`player, this`lastDamaged, this`divineState
      ensures Valid() && fresh(level.maze) && LevelChanged(old(Snapshot()), Snapshot(), d)
    {
      score, lastDamaged, divineState := score + 1, None, Idle;
      BuildLevel(d);
    }

    /** The set-up block proper: a level built for the current score, with
        the player on its entrance. */
    method BuildLevel(d: LevelDraws)
      requires 0 <= score && 0 <= divineInventory <= MAX_DIVINE_EYES && divineState == Idle
      modifies this`level, this`player
      ensures Valid() && fresh(level.maze) && Planned(level, d)
      ensures Snapshot() == old(Snapshot()).(level := level, player := level.entrance)
    {
      var lv := MakeLevel(score, d);
      level, player := lv, lv.entrance;
    }

    /** The exit check: standing on the exit with no step in progress ends
        the level. */
    method CheckExit(d: LevelDraws)
      requires Valid()
      modifies this`score, this`level, this`player, this`lastDamaged, this`divineState
      ensures Valid()
      ensures if !old(animating) && old(player) == old(level).exitCell
        then fresh(level.maze) && LevelChanged(old(Snapshot()), Snapshot(), d)
        else Snapshot() == old(Snapshot())
    {
      if !animating && player == level.exitCell {
        NewLevel(d);
      }
    }

    /** The collision toggle cheat (key `n`). */
    method ToggleNoCollision()
      requires Valid()
      modifies this`noCollision
      ensures Valid() && noCollision == !old(noCollision)
    {
      noCollision := !noCollision;
    }

    /** The health cheat (key `h`): fifty more health, with no cap. */
    method HealCheat()
      requires Valid()
      modifies this`health
      ensures Valid() && health == old(health) + 50
    {
      health := health + 50;
    }

    /** One frame of the loop, in the loop's order: the key events
        (`events`, the `i`-th level cheat building from `levels(i)`), the
        movement block, collisions, the exit check (building from
        `exitDraws`) and the Divine-Eyes effect; `over` is the game-over
        test that ends the frame. */
    method Frame(events: seq<KeyEvent>, levels: nat -> LevelDraws, keys: Keys, now: int, dt: int,
                 critRoll: real, exitDraws: LevelDraws) returns (over: bool)
      requires Valid() && dt >= 0
      modifies this`score, this`health, this`level, this`player, this`animating, this`animStart, this`target
      modifies this`lastDamaged, this`noCollision
      modifies this`divineInventory, this`divineState, this`divineProgress, this`divinePath
      ensures Valid()
      ensures exists trace: seq<Snap>, moved: Snap, resolved: Snap ::
        EventTrace(trace, events, levels) && trace[0] == old(Snapshot()) &&
        Moved(trace[|events|], moved, keys, now) && Resolved(moved, resolved, dt, critRoll, exitDraws) &&
        Refreshed(resolved, Snapshot())
      ensures old(score) + Count(events, LevelKey) <= score <= old(score) + Count(events, LevelKey) + 1
      ensures over <==> health <= 0
    {
      ghost var trace := HandleEvents(events, levels);
      ghost var mazes := set j | 0 <= j < |trace| :: trace[j].level.maze;
      label events:
      ghost var moved, resolved := Play(keys, now, dt, critRoll, exitDraws);
      assert unchanged@events(mazes);
      FrameTally(old(Snapshot()), Snapshot(), trace, events, levels, moved, resolved, keys, now, dt, critRoll, exitDraws);
      over := health <= 0;
    }

    /** The rest of a frame after its key events: the movement block, then
        collisions, the exit check, the Divine-Eyes effect and the drawing
        block's path refresh; `moved` and `resolved` are the states in
        between. */
    method Play(keys: Keys, now: int, dt: int, critRoll: real, d: LevelDraws)
      returns (ghost moved: Snap, ghost resolved: Snap)
      requires Valid() && dt >= 0
      modifies this`score, this`health, this`level, this`player, this`animating, this`animStart, this`target
      modifies this`lastDamaged, this`divineInventory, this`divineState, this`divineProgress, this`divinePath
      ensures Valid()
      ensures Moved(old(Snapshot()), moved, keys, now) && Resolved(moved, resolved, dt, critRoll, d)
      ensures Refreshed(resolved, Snapshot())
    {
      Move(keys, now);
      moved := Snapshot();
      label moved:
      resolved := Finish(dt, critRoll, d);
      assert unchanged@moved(moved.level.maze);
    }

    /** Collisions, the exit check and the Divine-Eyes effect, then the
        drawing block, which refreshes a sustained path once more;
        `resolved` is the state before the drawing block. */
    method Finish(dt: int, critRoll: real, d: LevelDraws) returns (ghost resolved: Snap)
      requires Valid() && dt >= 0
      modifies this`health, this`lastDamaged, this`level, this`divineInventory, this`score, this`player
      modifies this`divineState, this`divineProgress, this`divinePath
      ensures Valid()
      ensures Resolved(old(Snapshot()), resolved, dt, critRoll, d) && Refreshed(resolved, Snapshot())
    {
      Resolve(dt, critRoll, d);
      resolved := Snapshot();
      label resolved:
      RefreshPath();
      assert unchanged@resolved(resolved.level.maze);
    }

    /** The event loop of a frame: each key event in turn. */
    method HandleEvents(events: seq<KeyEvent>, levels: nat -> LevelDraws) returns (ghost trace: seq<Snap>)
      requires Valid()
      modifies this`score, this`health, this`level, this`player, this`lastDamaged, this`noCollision
      modifies this`divineInventory, this`divineState, this`divineProgress, this`divinePath
      ensures Valid()
      ensures EventTrace(trace, events, levels) && trace[0] == old(Snapshot()) && trace[|events|] == Snapshot()
    {
      trace := [Snapshot()];
      for i := 0 to |events|
        invariant Valid()
        invariant |trace| == i + 1 && trace[0] == old(Snapshot()) && trace[i] == Snapshot()
        invariant EventTrace(trace, events[..i], levels)
      {
        ghost var mazes := set j | 0 <= j < |trace| :: trace[j].level.maze;
        label before:
        HandleEvent(events[i], levels(i));
        assert unchanged@before(mazes);
        TraceExtend(trace, events, i, levels, Snapshot());
        trace := trace + [Snapshot()];
      }
      assert events[..|events|] == events;
    }

    /** One key event; the level cheat builds its level from `d`. */
    method HandleEvent(e: KeyEvent, d: LevelDraws)
      requires Valid()
      modifies this`score, this`health, this`level, this`player, this`lastDamaged, this`noCollision
      modifies this`divineInventory, this`divineState, this`divineProgress, this`divinePath
      ensures Valid() && EventStep(old(Snapshot()), Snapshot(), e, d)
    {
      match e {
        case CollisionKey => ToggleNoCollision();
        case HealthKey => HealCheat();
        case LevelKey => NewLevel(d);
        case OrbKey => GrantDivineEyes();
        case DivineKey => ActivateDivineEyes();
      }
    }

    /** The movement block of a frame: the arrow keys, then the end of a
        step. */
    method Move(keys: Keys, now: int)
      requires Valid()
      modifies this`animating, this`animStart, this`target, this`player
      ensures Valid() && Moved(old(Snapshot()), Snapshot(), keys, now)
    {
      StartMove(keys, now);
      FinishMove(now);
    }

    /** The rest of a frame: collisions, the exit check and the Divine-Eyes
        effect. */
    method Resolve(dt: int, critRoll: real, d: LevelDraws)
      requires Valid() && dt >= 0
      modifies this`health, this`lastDamaged, this`level, this`divineInventory, this`score, this`player
      modifies this`divineState, this`divineProgress, this`divinePath
      ensures Valid() && Resolved(old(Snapshot()), Snapshot(), dt, critRoll, d)
    {
      Collide(critRoll);
      ghost var collided := Snapshot();
      CheckExit(d);
      AdvanceDivineEyes(dt);
    }
  }
}
