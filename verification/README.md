# Maze Runners: the grid and rule core, in Dafny

Maze Runners is a small top-down pygame game. The player walks through a randomly carved
maze from an entrance in the bottom row to an exit in the top row. Along the way there are
traps (a hit does 20 damage, sometimes a critical hit), healing stations (one use each,
health times 1.5), wall-mounted projectile emitters and rare "Divine Eyes" orbs. Spending
an orb shows a path to the exit. Every fifth level is a larger boss level.

This project models the discrete core of `source/main.py` and proves what it promises:

- the difficulty table;
- depth-first maze carving on a 2D wall/open grid;
- the two boundary openings;
- the three placement passes (traps and healing stations, emitters, orbs);
- breadth-first path search;
- line of sight;
- the frame-by-frame rules of the game loop: move acceptance, the end of a step, the
  collision step (trap, heal, pickup), Divine-Eyes activation and its animation, the
  level exit, and the cheats that change game state.

Randomness is an input:

- `draws: nat -> nat` stands for successive `random.choice` calls. The `k`-th call picks
  index `draws(k) % n`.
- `rolls: nat -> real` stands for successive `random.random()` calls. The `j`-th roll of a
  pass goes to the `j`-th cell the pass considers.

Modules:

| module | file | models |
|---|---|---|
| `Grid` | grid.dfy | cells, the four unit steps, open cells, walks and reachability |
| `Numeric` | numeric.dfy | `clamp`; Python's truncating `int()` on health |
| `Settings` | settings.dfy | the constants and `get_map_settings` |
| `Pathfinding` | pathfinding.dfy | `find_path` (queue, `came_from` map, reconstruction) |
| `MazeGen` | maze_gen.dfy | `generate_maze`, `add_entrance_exit` |
| `Placement` | placement.dfy | `generate_items`, `generate_projectile_traps`, the orb pass of `main` |
| `Visibility` | visibility.dfy | `is_visible` |
| `Rules` | rules.dfy | the collision and movement rules as functions of the state they read |
| `Game` | game.dfy | level set-up and the class `Session`: the state `main` keeps between frames |

Imperative code stays imperative:

- The carver, the BFS, the boundary openings and the placement passes are methods with
  loops over an `array2<int>` grid (1 = wall, 0 = open).
- Each is proved against a specification function or predicate.
- `Session` holds the game loop's variables as fields. Each of its methods lists, in
  `modifies`, field by field, only the fields it may change. The steps a frame is made of
  state their new state through `Snapshot()`, a value of type `Snap` holding every field, and
  relations such as `LevelChanged` and `Resolved` between two such values.

## Model

| member | source | states |
|---|---|---|
| `Numeric.Clamp` | source/main.py:72-73 | With `lo <= hi` the result lies in `[lo, hi]`. It is `val` when `val` is inside, `lo` below and `hi` above. With `hi < lo` it is `lo`, as `max(lo, min(val, hi))` gives. |
| `Numeric.ClampIdempotent` | source/main.py:72-73 | Clamping twice equals clamping once. |
| `Numeric.ClampMovesToward` | source/main.py:72-73 | The clamped value is at least as close as `val` to every point of `[lo, hi]`. |
| `Numeric.TruncHalf` | source/main.py:440 | `int(n/2)` rounds toward zero for both signs: `2r <= n < 2r+2` when `n >= 0`, and the mirror image when `n < 0`. |
| `Numeric.TruncQuarter` | source/main.py:423 | `int(0.25*n)` rounds toward zero for both signs: `4r <= n < 4r+4` when `n >= 0`, and the mirror image when `n < 0`. |
| `Numeric.TruncSymmetric` | source/main.py:423 | Truncation is odd-symmetric. |
| `Settings.GetMapSettings` | source/main.py:205-222 | Width equals height and is 21, 41 or 61. Boss exactly when `score > 0 && score % 5 == 0`, and exactly when the width is 61. Width 21 exactly when not boss and `score < 2`. The projectile chance is 0.30 on boss levels, else `0.02 + 0.005*score` up to its cap of 0.15. The crit chance is 0.25 on boss levels, else 0.10. |
| `Settings.SettingsTiers` | source/main.py:205-222 | For scores 0 and 1: size 21 with trap chance 0.02. Other non-multiples of 5: size 41 with 0.035. Positive multiples of 5: size 61 with 0.05. |
| `Settings.SettingsSizeOdd` | source/main.py:19-22 | Every size the table returns is odd and at least 21. |
| `Settings.ProjectileChanceMonotone` | source/main.py:221 | Off boss levels the projectile chance never decreases as the score grows, and stays at or below 0.15. |
| `Settings.ProjectileChanceBounds` | source/main.py:221 | For every score the projectile chance lies in `[0.02, 0.30]`. |
| `Settings.ProjectileChanceCapped` | source/main.py:221 | Off boss levels the chance equals the cap 0.15 from score 26 on. |
| `Grid.Direction` | source/main.py:89 | Each of the four scan directions (up, down, left, right) is one unit step. |
| `Grid.AdjacentIsStep` | source/main.py:89-91 | Every 4-neighbour of a cell is one of its four scan steps. |
| `Grid.WalkStaysInClosedSet` | source/main.py:84-95 | A cell set that holds the start and is closed under open steps holds the end of every walk from the start. |
| `Grid.Reverse` | source/main.py:104 | `path.reverse()`: same length, element `i` is element `n-1-i`. |
| `Grid.ReverseOpenWalk` | source/main.py:97-105 | A walk from an open start, reversed, is a walk back. |
| `Grid.JoinWalks` | source/main.py:97-105 | Two walks that meet join into one walk. |
| `Pathfinding.Visit` | source/main.py:92-95 | One neighbour test. The neighbour is recorded and queued exactly when it is open and unseen. The `came_from` tree stays a tree of open cells rooted at the start. |
| `Pathfinding.Expand` | source/main.py:89-95 | The four-neighbour loop. Afterwards every open neighbour of `current` is in `came_from`, and only unseen in-bounds cells were queued. |
| `Pathfinding.AfterRound` | source/main.py:84-95 | One round of the queue loop keeps every queued cell recorded. Every expanded cell has all its open neighbours recorded. The unseen cells shrink or the queue shortens. |
| `Pathfinding.Search` | source/main.py:82-95 | The search loop ends with a `came_from` tree rooted at `start`. When `goal` is missing, every recorded cell has all its open neighbours recorded. |
| `Pathfinding.ChainIsWalk` | source/main.py:97-105 | Following `came_from` back from the goal and reversing gives a walk from start to goal. |
| `Pathfinding.Rebuild` | source/main.py:97-105 | The reconstruction loop returns a walk from start to goal, and `[start]` when they are equal. |
| `Pathfinding.FindPath` | source/main.py:79-105 | The result is `[]` exactly when no walk through open cells joins start and goal. Otherwise it starts at `start` and ends at `goal`, consecutive cells are 4-adjacent, and every cell after the start is in bounds and open. `start == goal` gives `[start]`. |
| `MazeGen.OpenCellsAreOpen` | source/main.py:134-136 | The open-cell set is exactly the in-bounds cells holding 0. |
| `MazeGen.WallJumps` | source/main.py:139-144 | The collected `neighbors` are `JumpWalls(maze, p, 4)`: the rooms one jump away in the scan order up, down, left, right, kept when strictly inside the grid and still walls. Every listed room is such a wall, and every such wall is listed. |
| `MazeGen.JumpGeometry` | source/main.py:146-148 | The wall written by `maze[r + (nr-r)//2, c + (nc-c)//2]` lies between the two rooms and is adjacent to both. |
| `MazeGen.OpenPassage` | source/main.py:147-149 | Carving one step opens exactly the jumped-over wall and the chosen room. |
| `MazeGen.CarvingStep` | source/main.py:145-150 | A push keeps the carved shape, keeps every off-stack room finished, and links both new cells into the parent tree rooted at `(1, 1)`. |
| `MazeGen.OneRoomOneWall` | source/main.py:145-150 | A push opens exactly one more room and one more non-room cell, so the count of open non-rooms stays one less than the count of open rooms. |
| `MazeGen.NoWallJumpsFinished` | source/main.py:145-152 | A room with no wall left one jump away is finished: all its jump targets are open. |
| `MazeGen.CarveRound` | source/main.py:138-152 | One round of the `while stack` loop keeps the carver's invariant. With wall rooms next to the top, the `k`-th draw picks `neighbors[draws(k) % n]`; that room is pushed, and it and the wall midway are opened. With none, the top is popped and the grid is unchanged. Each round opens cells or pops, which is what makes the loop end. |
| `MazeGen.AllRoomsOpen` | source/main.py:137-151 | When the stack is empty, every room (both coordinates odd) is open. |
| `MazeGen.RootedIsConnected` | source/main.py:137-151 | Every open cell reaches `(1, 1)` by following parents. |
| `MazeGen.CarvingDone` | source/main.py:137-151 | At loop exit every room is open, and every open cell is reachable from `(1, 1)`. |
| `MazeGen.GenerateMaze` | source/main.py:133-153 | The result is a fresh `h` by `w` grid of 0s and 1s. Every open cell is a room or the wall midway between two open rooms. Every room is open. Every open cell is 4-connected to `(1, 1)` through open cells. The open non-room cells (the knocked-out walls) number one less than the open rooms. |
| `MazeGen.CarvedBorderIsWall` | source/main.py:141-143 | With odd sides the outer border stays wall, because steps of 2 from `(1, 1)` under `0 < nr < h` never reach row/column 0 or `h-1`. |
| `MazeGen.CarvedHasNoOpenSquare` | source/main.py:133-153 | A carved grid has no 2x2 block of open cells. |
| `MazeGen.OddColumns` | source/main.py:157 | `range(1, w, 2)`: the odd columns below `w`, in increasing order. |
| `MazeGen.OpenColumns` | source/main.py:158 | Keeps exactly the listed columns that are open in the given row. |
| `MazeGen.Candidates` | source/main.py:157-164 | The candidate columns are odd and in `[1, w)`. There are some exactly when `w >= 2`. Either all are open in the row, or they are all the odd columns. |
| `MazeGen.CandidatesChoice` | source/main.py:157-165 | The candidate list is never empty. It holds only odd columns in `[1, w)`. It is the open odd columns of the row when there are any, else all odd columns. |
| `MazeGen.AddEntranceExit` | source/main.py:155-168 | Returns `((h-1, e), (0, x))`. `x` is drawn from the row-1 candidates and `e` from the row-`h-2` candidates, both read before either write. `e` and `x` are odd and in `[1, w)`. Both cells are open afterwards, and no other cell changes. The open set gains exactly these two cells. |
| `MazeGen.TwoOpened` | source/main.py:166-167 | A grid that differs from a previous one only by two open cells has exactly those two cells added to its open set. |
| `MazeGen.WalkAsSetWalk` | source/main.py:166-167 | A walk through open cells is a walk within the open-cell set, so it survives later openings. |
| `MazeGen.ConnectedAsSet` | source/main.py:133-153 | Connectivity of a carved grid restated on its open-cell set. |
| `MazeGen.CarvedWalk` | source/main.py:166-167 | A walk within the carved cells is still a walk after the openings are added. |
| `MazeGen.ThroughStart` | source/main.py:155-168 | The entrance, the room above it, `(1, 1)`, the room below the exit and the exit join into one walk. |
| `MazeGen.EntranceReachesExit` | source/main.py:133-168 | On an odd-sized carved grid, the entrance and exit opened by `add_entrance_exit` are joined by a walk through open cells. |
| `Placement.FirstLaneFrom` | source/main.py:190-202 | Returns the first direction from `d` on whose two cells are in bounds and open, or 4 when there is none. |
| `Placement.RowSitesFacts` | source/main.py:174-176 | A row's scan visits exactly its eligible cells below the column bound, in increasing column order. |
| `Placement.SitesAboveFacts` | source/main.py:174-176 | The scan of the rows above `r` visits exactly their eligible cells, in row-major order. |
| `Placement.SitesFacts` | source/main.py:174-176 | A whole pass visits each eligible cell exactly once, in row-major order. |
| `Placement.Picked` | source/main.py:177-182 | The kept cells are a subset of the visited cells, and no more of them. |
| `Placement.PickedSnoc` | source/main.py:177-182 | One more visited cell is appended exactly when its roll is in the band. |
| `Placement.RowSitesSnoc` | source/main.py:174-176 | Extending a row's scan by one column appends that cell exactly when it is eligible. |
| `Placement.PickedIff` | source/main.py:177-182 | The `j`-th visited cell is kept exactly when the `j`-th roll is in the band. |
| `Placement.PickedSorted` | source/main.py:177-182 | The kept cells stay in row-major order. |
| `Placement.GenerateItems` | source/main.py:170-182 | The nested loops return exactly the traps and healing stations that the row-major, one-roll-per-free-cell specification picks. |
| `Placement.ItemsPlacement` | source/main.py:170-182 | Every trap and every station is an open cell other than the entrance and exit. The two lists are disjoint. The `j`-th free cell is a trap exactly when roll `j < trap_prob`, and a station exactly when `trap_prob <= roll j < trap_prob + heal_prob`. Every free cell is visited. |
| `Placement.ArmFacts` | source/main.py:196-201 | Arming keeps one emitter per kept wall, in order. |
| `Placement.FindLane` | source/main.py:190-202 | The direction loop returns the first direction whose two cells are open, or 4 when there is none. |
| `Placement.ArmedIsArm` | source/main.py:196-201 | The emitters built so far are those armed on the kept walls. |
| `Placement.ArmRow` | source/main.py:187-202 | One row of the emitter pass extends both the kept walls and the emitter list by that row's picks. |
| `Placement.GenerateProjectileTraps` | source/main.py:184-203 | The nested loops return exactly the planned emitters: one roll per interior wall that has a lane, with an emitter when the roll is below the chance. |
| `Placement.EmitterShape` | source/main.py:184-203 | Each emitter sits on an interior wall. `pos+dir` and `pos+2*dir` are in bounds and open. `dir` is the wall's first qualifying direction. `last_shot` is 0 and `cooldown` is `PROJECTILE_COOLDOWN`. |
| `Placement.PlannedSite` | source/main.py:187-202 | Each emitter is the one armed on an interior wall that has a lane. |
| `Placement.ArmAtShape` | source/main.py:190-201 | An emitter armed on a wall with a lane faces two open cells, in its first qualifying direction. |
| `Placement.EmittersDistinct` | source/main.py:187-202 | Emitter positions are strictly increasing in row-major order, so no wall gets two emitters. |
| `Placement.EmitterRolls` | source/main.py:190-201 | The `j`-th wall with a lane gets an emitter exactly when roll `j` is below the chance. Only its first qualifying direction is rolled. |
| `Placement.SocketSites` | source/main.py:187-202 | The walls the emitter pass rolls for are exactly the interior walls with a lane. |
| `Placement.PlaceDivinePowerups` | source/main.py:292-298 | The orb loop returns exactly the planned orbs. |
| `Placement.PowerupPlacement` | source/main.py:292-298 | Only medium mazes get orbs. Orbs sit on open cells other than the entrance and exit. The `j`-th free cell gets one exactly when roll `j < DIVINE_EYES_SPAWN_CHANCE`. |
| `Visibility.IsVisible` | source/main.py:224-240 | True exactly when item and player share a row or column and no wall lies strictly between them. |
| `Visibility.SelfVisible` | source/main.py:224-240 | An identical position is visible. |
| `Visibility.DiagonalHidden` | source/main.py:239-240 | A position on neither the player's row nor column is never visible. |
| `Visibility.NeighbourVisible` | source/main.py:224-240 | A 4-neighbour is always visible. |
| `Visibility.SightSymmetric` | source/main.py:224-240 | Line of sight is symmetric. |
| `Visibility.WallBlocksRow` | source/main.py:227-231 | A wall strictly between the two on a shared row hides the item. |
| `Rules.MoveTarget` | source/main.py:393-401 | The target equals the current cell exactly when no arrow key is held. Otherwise it is one unit step away, with up, down, left, right taking priority in that order. |
| `Rules.AcceptedMove` | source/main.py:402-403 | A step is accepted exactly when a key is held and either collisions are off or the target is in bounds and open. The accepted cell is the target and is adjacent. |
| `Rules.AcceptedMovesStayOpen` | source/main.py:402-414 | With collisions on, any sequence of accepted moves from an open cell ends on an open cell. |
| `Rules.TrapDamage` | source/main.py:422-430 | 20 on a normal hit. A critical hit adds `int(0.25*h)`, rounded toward zero. |
| `Rules.TrapStep` | source/main.py:420-437 | Off a trap the marker is cleared and health is unchanged. On a trap the marker becomes that cell. Health drops by the damage unless the marker already named that cell. |
| `Rules.TrapOncePerVisit` | source/main.py:420-435 | Staying on a trap for another frame changes nothing, whatever the roll. |
| `Rules.TrapHurtsOnReturn` | source/main.py:436-437 | Stepping off and back onto a trap hurts again. |
| `Rules.Healed` | source/main.py:440 | `int(h + h*0.5)`: `h + h/2` for `h >= 0`, rounded toward zero for either sign. Never lowers non-negative health. |
| `Rules.FirstIndex` | source/main.py:445 | The position `list.remove` takes out: the first occurrence. |
| `Rules.RemoveFirst` | source/main.py:445 | `list.remove(x)`: one entry shorter, the multiset minus one `x`, no new entries. |
| `Rules.RemoveFirstDistinct` | source/main.py:445 | On a list without repeats, removal takes out exactly that cell and keeps every other entry. |
| `Rules.HealStep` | source/main.py:438-445 | On a station, health becomes `Healed(h)` and exactly that station is removed. Otherwise nothing changes. |
| `Rules.PickupStep` | source/main.py:447-453 | An orb under the player is always removed. The inventory grows by one only below `MAX_DIVINE_EYES`, so it never passes the cap. |
| `Rules.PickupsStayCapped` | source/main.py:447-453 | Over any sequence of visits an inventory that starts within `[0, 2]` stays there, and the orb list never grows. |
| `Game.StationUseKeepsSound` | source/main.py:438-445 | Using a station keeps every remaining station on an open cell away from the openings and off the traps. |
| `Game.OrbUseKeepsSound` | source/main.py:447-453 | Picking up an orb keeps the remaining orbs on open cells away from the openings. |
| `Game.MakeLevel` | source/main.py:286-298 | A fresh level for the score, with these properties. Its settings are `GetMapSettings(score)`. The grid has the table's size, with the entrance in the bottom row and the exit in the top row, both open. A walk through open cells joins the entrance to the exit. Items lie on open cells away from the openings, and traps and stations are disjoint. Every emitter sits on a wall facing two open cells. The items are exactly the three passes' picks. |
| `Game.Session.constructor` | source/main.py:272-316 | The start of `main`: score 0, health 100, empty inventory, Divine Eyes off with progress 0 and no path, collisions on, no trap marker, no step in progress (start time 0, target the entrance), player on the entrance of a fresh sound first level whose items are planned from `d`. |
| `Game.Session.StartMove` | source/main.py:392-408 | With no step in progress and a move accepted, a step starts toward the accepted cell at `now`. Otherwise the step state is unchanged. Only the step fields change. |
| `Game.Session.FinishMove` | source/main.py:409-414 | Once `(now - start)/200 >= 1`, the step ends and the player stands on the target. Otherwise nothing changes. |
| `Game.Session.TrapCheck` | source/main.py:420-437 | Health and the trap marker become `TrapStep`'s result for the player's cell and the level's crit chance. |
| `Game.Session.HealCheck` | source/main.py:438-445 | Health and the station list become `HealStep`'s result. The level stays sound. |
| `Game.Session.PickupCheck` | source/main.py:447-453 | Inventory and the orb list become `PickupStep`'s result. The inventory stays within the cap. |
| `Game.Session.Collide` | source/main.py:418-453 | With no step in progress and collisions on, the new state is `Collided(old state, critRoll)`: the trap, heal and pickup rules in that order at the player's cell. Otherwise nothing changes. |
| `Game.Session.ActivateDivineEyes` | source/main.py:373-383 | `Activated(old state, new state)`: with the effect off, an orb held and a walk to the exit existing, one orb is spent, the animation starts at progress 0, and the path is a walk from the player to the exit. Otherwise nothing changes. |
| `Game.Session.GrantDivineEyes` | source/main.py:367-372 | The `o` cheat adds one orb only below the cap. |
| `Game.Session.AdvanceDivineEyes` | source/main.py:479-492 | `Advanced(old state, new state, dt)`: while animating, progress grows by `dt/5000` and snaps to 1 with the switch to sustain, keeping the path. While sustaining, it is `Refreshed`: the path becomes a fresh walk from the player to the exit when one exists. All other fields are kept. |
| `Game.Session.RefreshPath` | source/main.py:555-560 | `Refreshed(old state, new state)`: when the effect is sustained and the exit is reachable, the path becomes a walk from the player to the exit; otherwise nothing changes. The same search also runs at main.py:488-492. |
| `Game.ArrivalRefreshes` | source/main.py:481-560 | In the frame where the orb arrives, the effect block switches to sustain and the drawing block then leaves the path as a walk from the player's current cell. |
| `Game.Session.NewLevel` | source/main.py:339-360 | `LevelChanged(old state, new state, d)`: the score goes up by one and a sound level for it is built, whose items are the placement passes' picks with the draws `d`. The player moves to its entrance. The trap marker is cleared and Divine Eyes is switched off. Health, inventory and any step in progress carry over. |
| `Game.Session.BuildLevel` | source/main.py:286-298 | Installs a fresh sound level for the current score, whose items are planned from the draws, with the player on its entrance. No other field changes. |
| `Game.Session.CheckExit` | source/main.py:455-477 | Standing on the exit with no step in progress gives `LevelChanged`: the next level, with the player on its entrance. Otherwise nothing changes. |
| `Game.Session.ToggleNoCollision` | source/main.py:331-333 | The `n` cheat flips collision checking and nothing else. |
| `Game.Session.HealCheat` | source/main.py:334-338 | The `h` cheat adds 50 health, uncapped. |
| `Game.Session.Frame` | source/main.py:319-560 | One frame, in the loop's order: the new state is reached from the old by a trace of the key events, then the movement block, then `Resolved`, then the drawing block's `Refreshed`. The session stays sound. The score rises by the number of `l` cheats plus at most one. `over` is the game-over test of main.py:692-694, `health <= 0`. |
| `Game.Session.HandleEvents` | source/main.py:323-383 | The event loop: the returned trace starts at the old state, ends at the new one, and each step is `EventStep` for its key event. |
| `Game.Session.HandleEvent` | source/main.py:327-383 | One key event: `n` flips the collision flag, `h` adds 50 health, `l` is a `LevelChanged`, `o` adds an orb below the cap, `p` is `Activated`. Nothing else changes. |
| `Game.Session.Play` | source/main.py:392-560 | The rest of a frame after its events: `Moved`, then `Resolved`, then `Refreshed`. |
| `Game.Session.Finish` | source/main.py:418-560 | Collisions, the exit check and the Divine-Eyes effect (`Resolved`), then the drawing block's path refresh (`Refreshed`). |
| `Game.TraceExtend` | source/main.py:323-383 | A trace of the first `i` events, followed by one more event step, is a trace of the first `i + 1`. |
| `Game.StepTally` | source/main.py:331-383 | Each event step raises the score by one only for `l`, health by 50 only for `h`, flips the collision flag only for `n`, leaves a step in progress alone and keeps the inventory in its cap. |
| `Game.EventTally` | source/main.py:323-383 | Over a run of events: score plus the count of `l`, health plus 50 per `h`, the collision flag flipped by the parity of the `n` count, the step in progress kept, the inventory in its cap. |
| `Game.TraceTally` | source/main.py:323-383 | Every step of an event trace keeps the tally. |
| `Game.ResolvedScore` | source/main.py:418-477 | The rest of a frame raises the score by at most one, and by one only onto the entrance of a new sound level whose items are planned from the exit draws. |
| `Game.FrameTally` | source/main.py:319-560 | The four parts of a frame compose into one frame, whose score rises by the `l` count plus at most one. |
| `Game.Session.Move` | source/main.py:392-416 | `Moved(old state, new state, keys, now)`: with no step in progress an accepted move starts one at `now`; a step that is `ANIM_DURATION` old ends with the player on its target. Nothing else changes. |
| `Game.Session.Resolve` | source/main.py:418-492 | `Resolved(old state, new state, ...)`: collisions when no step is in progress and collisions are on, then the exit check (a `LevelChanged`), else the Divine-Eyes effect. |

`Game.Session.Valid` is the invariant every `Session` method keeps:

- the level is sound for the score: the table's settings and size, the entrance in the bottom
  row and the exit in the top row, both open and joined by a walk, items on open cells away
  from the openings, traps and stations disjoint, emitters on walls facing two open cells;
- the inventory is within `[0, 2]`;
- a shown Divine-Eyes path is a walk to the exit;
- the orb's progress is in `[0, 1)` while it flies and exactly 1 once it has arrived.

## Left out

- Drawing, fonts, the HUD, the window and event polling are not modelled, except that the
  drawing block's path search (main.py:555-560) writes the Divine-Eyes path; that write is
  `Game.Session.RefreshPath`, run at the end of every frame. Key presses and
  the frame clock come in as parameters (`Keys`, `now`, `dt`).
- Fog: the `noise.pnoise2` polygon and alpha blending are a foreign library plus float
  geometry.
- `interpolate_path`, `world_to_screen`, camera clamping and zoom smoothing, the pixel
  interpolation of a step and popup timing are not modelled. They are float screen
  geometry that no rule reads back.
- Projectile emission, flight and hits (`colliderect`) are not modelled. They depend on
  pixel positions, wall-clock time and pygame. The emitters are modelled up to their
  placement.
- The `t`, `f` and `e` cheats and the window's close event are not modelled. They toggle
  drawing or stop the loop after the frame, and change no modelled state.
- `Game.Session.Frame` leaves out projectile hits (main.py:496-534), which come between the
  Divine-Eyes block and the game-over test and can lower health, and the zoom keys. Its
  `over` is the game-over test applied to the modelled health.
- `print` logging is not modelled.
- The model uses separate random streams where the source has one. The game draws from one
  global `random` stream in a fixed order. The model gives each consumer its own stream: the
  carver, the two boundary picks, the item, emitter and orb passes, and the crit roll. A
  reader interleaves them to get the source's single sequence.
- `Game.Session.TrapCheck` takes the crit roll as a parameter. The source draws it only
  when the trap hurts. The parameter is simply ignored otherwise.
- Probabilities, rolls and times are exact `real`s rather than IEEE doubles. The table's
  sums (`0.02 + 0.005*score`) and the roll comparisons are therefore exact.
- `Rules.Healed`: `int(h + h*0.5)` on doubles equals the exact `h + h/2` rounded toward zero
  only while `|h|` is below about 3.0e15 (2^52/1.5). Above that the double result is rounded
  (for `h = 2^52 + 1` it is 6755399441055746, the model gives 6755399441055745), and past
  about 1.8e308 the float conversion raises `OverflowError`. The model keeps the exact value.
- `Rules.TrapDamage`: `int(0.25*h)` on doubles is exact only while `|h|` is at most 2^53, and
  it raises `OverflowError` past the double range. The model keeps the exact value.
- Health and scores are otherwise unbounded integers, as Python's ints are.
- `Visibility.IsVisible` requires both cells to be in bounds. With the no-collision cheat
  the player can leave the grid. `is_visible` then indexes with negative or too-large
  coordinates (numpy wraps or raises), which the model does not cover.
- `Pathfinding.FindPath` proves that the result is a walk, and that it is `[]` exactly when
  the goal is unreachable. It does not prove that the BFS path is a shortest one.
- `Game.Session.Valid` and `Game.LevelChanged` do not carry the carving facts of
  `MazeGen.GenerateMaze` (border walls except the openings, no open 2x2 square, openings on
  odd columns). A level satisfying them need not be one the carver could build; only its
  items are tied to the draws.
- `MazeGen.GenerateMaze` states that the carved maze is a tree (one path between any two
  rooms) as connectivity plus an edge count: rooms are the vertices, knocked-out walls the
  edges, and there is one edge fewer than vertices. The graph-theory step from these two
  facts to "no cycle" is not proved.
- `MazeGen.GenerateMaze` requires `w, h >= 2`, since the source's first write
  `maze[(1, 1)]` needs that. `MazeGen.AddEntranceExit` likewise requires at least two
  columns: with fewer, `random.choice([])` raises `IndexError` (main.py:157-161), a case the
  model does not cover. Every size the table returns is at least 21. Connectivity from the entrance to the exit is proved for the
  odd sizes the table uses.
- `Game.Session.NewLevel` does not end a step that is in progress, exactly as the `l`
  cheat leaves `is_animating` and `target_grid` alone. The exit check only fires with no
  step in progress.
