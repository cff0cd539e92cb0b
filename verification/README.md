# A verified model of the simple RTS tick simulation

This project models, in Dafny, the gameplay core of a small real-time-strategy
prototype and the self-contained helpers of its custom interface. It proves
properties of that model.

The JavaScript version is the reference. It covers:

- the grid pathfinder (`test/pathfinding.js`);
- combat (`test/combat.js`);
- collision resolution (`simple_rts/collision.js`);
- the unit order state machine and movement (`simple_rts/unit.js`);
- the command dispatcher (`simple_rts/commands.js`);
- the selection manager (`test/selection.js`);
- the archetype table (`simple_rts/data/units.js`);
- the game tick (`test/main.js`).

There are four C++ ports of the same rules:

- `simple_game_advanced.cpp`: 24.8 fixed-point (`fp8`) arithmetic on raw integers, and an octile A* with obstacle grids built from the units.
- `test_pathfinding.cpp`: the same A*, with a cap of 1000 expansions.
- `simple_rts.cpp` and `simple_game_sdl.cpp`: ports that use floating point.

From `ui_custom.h` the model takes:

- the ARGB colour helpers;
- the 8-bit run-length PCX loader;
- the actions-per-minute counter;
- the selection id list;
- the sprite depth key;
- the health-bar widths;
- the rank label;
- the volume clamp.

The model follows the shape of the code:

- Objects whose fields the program updates become classes. Their methods carry `modifies` clauses and are proved against functions on values that say what they compute.
- Pure computations become functions with named results.
- Loops become methods with loop invariants.
- Properties that relate several calls are lemmas.

Modules:

- `Common`: C and JavaScript integer division, truncation, floor, and the abstract Euclidean norm.
- `Damage`: the shield-first damage rule.
- `Archetypes`: the unit table.
- `GridPath`: `pathfinding.js`.
- `JsUnits`: `unit.js`.
- `JsUnitTick`: `unit.js`'s update and executeOrder.
- `JsCombat`, `JsCollision`, `JsCommands`, `JsSelection`, `JsGame`: the other JavaScript files.
- `FixedPoint`: `fp8`, `Vec2` and `Direction`.
- `AStar`: the C++ A*.
- `AdvancedUnits` and `AdvancedGame`: `simple_game_advanced.cpp`.
- `FloatRules`: the table, cooldown, movement step and collision push shared by the floating-point ports.
- `SimpleRts`: `simple_rts.cpp`.
- `SdlSim`: `simple_game_sdl.cpp`.
- `UiColor`, `Pcx`, `ActionsPerMinute`, `UiSelection`, `UiFunctions`: `ui_custom.h`.

Numbers:

- Positions in the JavaScript and floating-point ports are `real`.
- A Euclidean length is a parameter `norm` that satisfies `norm(dx, dy) >= 0` and `norm(dx, dy)^2 == dx^2 + dy^2`.
- `fp8` is modelled exactly: a raw integer holding 256 times the value, with `length()` as the integer square root of the raw sum of squares.
- C's `/` and `%` truncate toward zero, and are written out as such.

Model choices:

- JavaScript unit ids come from a counter rather than `Math.random`.
- JavaScript order targets are object references, since JavaScript keeps them alive.
- The advanced port refers to targets by id, so a target erased from the list is simply absent.
- The two floating-point ports keep references to units. A unit erased from the list is still readable there, and dead.

## Model

| member | source | states |
|---|---|---|
| Common.TDiv | game_integrated/ui_custom.h:1844-1852 | C's `/` on `int`: the quotient's size is the quotients of the sizes, its sign that of the operands' product |
| Common.TRem | game_integrated/ui_custom.h:1825-1827 | C's `%`: dividend = quotient * divisor + remainder, the remainder smaller than the divisor and signed like the dividend |
| Common.FloorToInt | game_integrated/test/pathfinding.js:4-5 | `Math.floor`: the greatest integer not above the value |
| Common.TruncToInt | game_integrated/simple_rts/test_pathfinding.cpp:44-47 | a C cast of a float to `int` truncates toward zero: within one of the value, same sign |
| Damage.DamageAmount | game_integrated/test/combat.js:9-13 | the damage is attack power minus armor, but at least 1 |
| Damage.ApplyDamageTotal | game_integrated/test/combat.js:19-30 | a hit lowers shield plus hit points by exactly the damage |
| Damage.ApplyDamageShield | game_integrated/test/combat.js:19-30 | a positive shield absorbs first and stops at 0, the rest spills into hit points; an empty shield leaves the whole hit to hit points |
| Archetypes.KindOf | game_integrated/simple_rts/data/units.js:2-46 | a key the table holds gives the kind whose key it is |
| Archetypes.TableKeys | game_integrated/simple_rts/data/units.js:2-46 | the table holds exactly the keys marine, zealot and zergling, each naming its own kind |
| Archetypes.StatsPositive | game_integrated/simple_rts/data/units.js:2-46 | every row has positive hit points, speed, cooldown and size, and non-negative shield and armor |
| Archetypes.OnlyZealotShielded | game_integrated/simple_rts/data/units.js:17-30 | only the zealot has a shield (60) and armor (1) |
| Archetypes.MarineStats | game_integrated/simple_rts/data/units.js:3-16 | the marine's hit points, power, range, cooldown, speed and armor |
| Archetypes.MatchupDamage | game_integrated/test/combat.js:9-13 | under the damage rule a marine hits a zealot for 5, a zergling hits it for 4, a zealot hits the others for 16 |
| GridPath.CellOf | game_integrated/test/pathfinding.js:4-5 | a world point lies in the 32-unit square of the cell it is mapped to |
| GridPath.Centre | game_integrated/test/pathfinding.js:106 | a waypoint is its cell's centre, which maps back to that cell |
| GridPath.CentresAt | game_integrated/test/pathfinding.js:100-112 | the waypoints of a cell list are its centres, one per cell, in order |
| GridPath.InGridCells | game_integrated/test/pathfinding.js:85 | the grid holds exactly the cells inside 40 x 30 |
| GridPath.HeuristicMetric | game_integrated/test/pathfinding.js:69-72 | the Manhattan heuristic is zero only on equal cells, symmetric, obeys the triangle inequality, and one eight-way step changes it by 1 or 2 |
| GridPath.NeighbourListMembers | game_integrated/test/pathfinding.js:74-91 | the neighbour list holds exactly the in-grid cells reached by the given offsets |
| GridPath.NeighbourListStep | game_integrated/test/pathfinding.js:81-88 | one turn of the neighbour loop appends the offset cell when it is in the grid |
| GridPath.DirectionIndex | game_integrated/test/pathfinding.js:76-79 | every one-step offset is one of the eight directions |
| GridPath.NeighboursAreAdjacent | game_integrated/test/pathfinding.js:74-91 | the neighbours are exactly the in-grid cells adjacent to the node |
| GridPath.ScoreOr | game_integrated/test/pathfinding.js:31 | `get(key) \|\| Infinity`: a missing score and a score of 0 both read as Infinity |
| GridPath.SortKeepsOrder | game_integrated/test/pathfinding.js:28-32 | when every score reads as Infinity the comparator gives NaN and the stable sort leaves the open list unchanged |
| GridPath.BlockFootprint | game_integrated/test/pathfinding.js:93-98 | an obstacle blocks its own cell and at most the cells one step right and down; on a cell corner only its own |
| GridPath.ObstacleFootprint | game_integrated/test/pathfinding.js:93-98 | for a list of obstacle points: each one's own cell is blocked, and a blocked cell lies at offset 0 or 1 on each axis from the cell of some obstacle point |
| GridPath.ChainIsRoute | game_integrated/test/pathfinding.js:100-112 | following `cameFrom` back from a discovered cell gives an eight-way route from the start through unblocked cells |
| GridPath.FoundTarget | game_integrated/test/pathfinding.js:37-39 | when the target is popped its chain is empty (target is the start) or a route to it |
| GridPath.CloseHead | game_integrated/test/pathfinding.js:34-41 | the popped cell is not yet closed, and closing it keeps the search invariant |
| GridPath.Discover | game_integrated/test/pathfinding.js:53-61 | pushing a new unblocked neighbour with its parent keeps the search invariant |
| GridPath.ExpandKeepsFrontier | game_integrated/test/pathfinding.js:34-62 | closing the popped cell and pushing its passable neighbours that are not closed, while the rest of the open list stays, keeps every passable neighbour of a closed cell closed or open |
| GridPath.RouteClosed | game_integrated/test/pathfinding.js:26-63 | once the open list is empty with the start closed, every cell of a route from the start is closed |
| GridPath.Exhausted | game_integrated/test/pathfinding.js:26-66 | a search that empties the open list without closing the target leaves no eight-way route to it through unblocked cells |
| GridPath.Pathfinder.constructor | game_integrated/test/pathfinding.js:3-9 | start and target are the cells of the given points; the grid is 40 x 30 |
| GridPath.Pathfinder.IsObstacle | game_integrated/test/pathfinding.js:93-98 | the cell of every obstacle point is an obstacle, and an obstacle cell is the cell of some obstacle point or one step right, down, or both from it |
| GridPath.Pathfinder.GetNeighbors | game_integrated/test/pathfinding.js:74-91 | the neighbours in direction order, exactly the in-grid adjacent cells |
| GridPath.Pathfinder.OffsetsInGrid | game_integrated/test/pathfinding.js:81-88 | the loop over the offsets keeps, in table order, exactly the offset cells inside the grid |
| GridPath.Pathfinder.ReconstructPath | game_integrated/test/pathfinding.js:100-112 | the path is the centres of the `cameFrom` chain ending at the current cell, the root excluded |
| GridPath.Pathfinder.ExpandNeighbors | game_integrated/test/pathfinding.js:44-62 | the neighbour loop keeps the search invariant; an already open neighbour keeps its parent; every cell already open stays open, and every passable neighbour not yet closed ends up open |
| GridPath.Pathfinder.FindPath | game_integrated/test/pathfinding.js:12-67 | empty path when start is the target; a found path is the centres of an eight-way route through unblocked cells; otherwise the target cell's centre alone, which happens only when no such route exists, in particular when the target is off the grid or an obstacle; each cell is expanded at most once |
| JsUnits.StepOffsets | game_integrated/simple_rts/unit.js:103-105 | a movement step displaces the unit by a fixed multiple of the vector to the waypoint, and leaves the complementary multiple to go |
| JsUnits.StepLength | game_integrated/simple_rts/unit.js:87-105 | a step of length `s` toward a waypoint at distance `d` covers exactly `s`, and without overshoot leaves `d - s` |
| JsUnits.Unit.constructor | game_integrated/simple_rts/unit.js:3-28 | a new unit takes its archetype's stats, full hit points and shield, no cooldown, no path, no order, not selected |
| JsUnits.Unit.UpdateMovement | game_integrated/simple_rts/unit.js:81-107 | no waypoint: nothing changes; within 3 of it: the cursor advances, and past the end the path clears and only a MOVE order ends; otherwise a step of `speed * deltaTime * 60` toward it |
| JsUnits.Unit.MoveTo | game_integrated/simple_rts/unit.js:109-114 | the cursor restarts; the path is empty exactly when the unit stands in the target's cell, and otherwise ends at that cell's centre |
| JsUnits.Unit.AttackTarget | game_integrated/simple_rts/unit.js:116-121 | the order becomes ATTACK on the target |
| JsUnits.Unit.Stop | game_integrated/simple_rts/unit.js:123-126 | the order becomes STOP and the path is dropped |
| JsUnits.Unit.Hold | game_integrated/simple_rts/unit.js:128-131 | the order becomes HOLD and the path is dropped |
| JsUnitTick.DecayBounds | game_integrated/simple_rts/unit.js:32-35 | the cooldown decay never raises the cooldown, never goes below zero, and a long enough frame finishes it |
| JsUnitTick.DecayAdditive | game_integrated/simple_rts/unit.js:32-35 | two frames decay the cooldown as much as one frame of their total length |
| JsUnitTick.ExecuteOrder | game_integrated/simple_rts/unit.js:51-79 | MOVE changes nothing; ATTACK chases a live out-of-range target, waits while in range, and drops a dead target's order; STOP clears path and order; HOLD clears the path and keeps the order |
| JsUnitTick.Advance | game_integrated/simple_rts/unit.js:30-43 | the cooldown decays by `DecayedCooldown`; a present order is carried out as `ExecuteOrder` describes, from the position before the move; then the unit moves as `Moved` says from that plan, so a HOLD unit, its path dropped, stays put; the order is only ever kept or cleared |
| JsUnitTick.Fight | game_integrated/simple_rts/unit.js:45-48 | a HOLD unit attacks nobody; under ATTACK the victim is the ordered target exactly when it has hit points left and is in range; otherwise it is the nearest living enemy in range, the earliest of equally near ones, and none exactly when no living enemy is in range; a victim takes the shield-first damage and the cooldown restarts only when the cooldown has run out; every other listed unit and ordered target keeps its shield and hit points |
| JsUnitTick.Update | game_integrated/simple_rts/unit.js:30-49 | the steps of `Advance`, then `Fight` from the moved position, the other units where they stood: the victim is as `Fight` states, it is hit only once the decayed cooldown has run out, which restarts the cooldown, and otherwise the cooldown is the decayed one; every other listed unit and ordered target keeps its shield and hit points |
| JsCombat.InRangeBySquares | game_integrated/test/combat.js:2-7 | the range test is a test on the squared distance |
| JsCombat.Attack | game_integrated/test/combat.js:15-36 | a hit happens exactly when the target is in range and the cooldown is over; it applies the shield-first damage and restarts the cooldown; otherwise nothing changes |
| JsCombat.NearestIndex | game_integrated/test/combat.js:38-57 | the scan settles on a live enemy or on none |
| JsCombat.NearestIndexIsNearest | game_integrated/test/combat.js:38-57 | the scan finds a live enemy exactly when one is listed; it is the nearest, ties going to the earliest |
| JsCombat.FindNearestEnemy | game_integrated/test/combat.js:38-57 | the nearest listed live enemy, or none exactly when there is no live enemy |
| JsCombat.LiveFlags | game_integrated/test/combat.js:45 | one flag per unit, in order, set exactly when the unit has hit points left |
| JsCombat.NearestInRangeIsNearest | game_integrated/test/combat.js:38-74 | the unit `autoAttack` goes for without an ATTACK order is the nearest living enemy, the earliest of equally near ones, when that one is in range, and none exactly when no living enemy is in range |
| JsCombat.AutoAttackNearest | game_integrated/test/combat.js:68-73 | without an ATTACK order `AutoAttackTarget` is the unit at `NearestInRangeIndex`, or none when that index is -1 |
| JsCombat.AutoAttackTarget | game_integrated/test/combat.js:59-74 | under ATTACK only the ordered target, when alive and in range; otherwise the nearest live enemy, when in range |
| JsCombat.AutoAttack | game_integrated/test/combat.js:59-74 | the attack goes for `AutoAttackTarget` and lands with the shield-first damage when the cooldown is over; nothing else changes |
| JsCollision.CollisionSymmetric | game_integrated/simple_rts/collision.js:3-12 | overlap is symmetric and is a test on the squared distance of two different units |
| JsCollision.Resolve | game_integrated/simple_rts/collision.js:14-33 | the pushes cancel, so the sum of positions is kept; coincident or non-overlapping circles do not move |
| JsCollision.ResolveSeparates | game_integrated/simple_rts/collision.js:14-33 | after resolution the centres lie on the same ray, exactly the sum of the radii apart |
| JsCollision.ResolveCollision | game_integrated/simple_rts/collision.js:14-33 | the units move to the positions `Resolve` gives; a unit paired with itself does not move |
| JsCollision.PairsFromMembers | game_integrated/simple_rts/collision.js:36-37 | from a row and column the loops visit exactly the pairs at or after it |
| JsCollision.PairsFromOrdered | game_integrated/simple_rts/collision.js:36-37 | from a row and column the loops visit their pairs in strictly increasing order, so each once |
| JsCollision.PairsExact | game_integrated/simple_rts/collision.js:35-43 | the pass visits every unordered pair exactly once, in index order |
| JsCollision.TotalUpdate | game_integrated/simple_rts/collision.js:28-31 | moving one unit changes the sum of positions by its displacement |
| JsCollision.SweepKeepsTotal | game_integrated/simple_rts/collision.js:35-43 | the whole collision pass never moves the units' centroid |
| JsCollision.Positions | game_integrated/simple_rts/collision.js:35-43 | the positions of the units, one per unit, in order |
| JsCollision.CheckPair | game_integrated/simple_rts/collision.js:38-40 | one inner-loop turn: the pair moves as `PairStep` says, every other unit stays |
| JsCollision.CheckAllCollisions | game_integrated/simple_rts/collision.js:35-43 | the new positions are the sweep of every unordered pair, in index order, from the old positions |
| JsCommands.ToLowerFacts | game_integrated/simple_rts/commands.js:61 | lower-casing is idempotent, and the keys `a`, `s`, `h` are matched in either case |
| JsCommands.CommandSystem.constructor | game_integrated/simple_rts/commands.js:3-5 | a new command system is in NORMAL mode |
| JsCommands.CommandSystem.OrderUnit | game_integrated/simple_rts/commands.js:9-32 | one unit ends in the state its order type prescribes, toward the order's destination |
| JsCommands.CommandSystem.IssueOrder | game_integrated/simple_rts/commands.js:7-34 | every listed unit ends in the prescribed state: MOVE plans a path, ATTACK on a unit plans to it under ATTACK, STOP and HOLD drop the path |
| JsCommands.CommandSystem.HandleRightClick | game_integrated/simple_rts/commands.js:36-58 | no selection: nothing; armed ATTACK mode: ATTACK even on allies or ground; else ATTACK an enemy unit, MOVE otherwise; the mode returns to NORMAL |
| JsCommands.CommandSystem.HandleKeyPress | game_integrated/simple_rts/commands.js:60-81 | `a` arms ATTACK mode, `s` stops and `h` holds the selection, `escape` returns to NORMAL, `a` and `escape` leave the selected units' paths and orders alone, other keys change nothing |
| JsSelection.WithoutMembers | game_integrated/test/selection.js:21-27 | removing a unit keeps exactly the other units, in order, and never grows the list |
| JsSelection.SpliceIsWithout | game_integrated/test/selection.js:22-24 | splicing out the unit at its `indexOf` position of a list without repeats removes it entirely |
| JsSelection.WithoutAbsent | game_integrated/test/selection.js:23 | removing an unlisted unit changes nothing |
| JsSelection.Picks | game_integrated/test/selection.js:44-52 | the units the rectangle loop keeps are listed, living units of the player inside the rectangle |
| JsSelection.PicksStep | game_integrated/test/selection.js:44-52 | each loop turn keeps the selection equal to the picked units seen so far |
| JsSelection.LastHit | game_integrated/test/selection.js:55-69 | the scan from the end stops at a living unit under the point, and no later unit is under it |
| JsSelection.SelectionManager.constructor | game_integrated/test/selection.js:3-8 | nothing selected, no drag |
| JsSelection.SelectionManager.ClearSelection | game_integrated/test/selection.js:29-34 | every listed unit loses its flag and the list empties |
| JsSelection.SelectionManager.SelectUnit | game_integrated/test/selection.js:10-19 | without shift the selection is cleared first; the unit is appended and flagged unless already listed |
| JsSelection.SelectionManager.IndexOf | game_integrated/test/selection.js:22 | the first position of the unit in the selection, or -1 exactly when it is not listed |
| JsSelection.SelectionManager.DeselectUnit | game_integrated/test/selection.js:21-27 | a listed unit leaves the list and loses its flag; otherwise nothing changes |
| JsSelection.SelectionManager.SelectUnitsInRect | game_integrated/test/selection.js:36-53 | the selection becomes exactly the player's living units inside the rectangle, in list order; the old selection loses its flags; every unit in neither the old nor the new selection keeps its flag |
| JsSelection.SelectionManager.PickUnit | game_integrated/test/selection.js:45-51 | a picked unit not yet listed is appended and flagged; any other unit is left alone |
| JsSelection.SelectionManager.FindUnitAt | game_integrated/test/selection.js:55-69 | the unit at the index LastHit gives, which is the last living unit whose circle holds the point, or none when LastHit finds none |
| JsSelection.SelectionManager.StartDrag | game_integrated/test/selection.js:71-74 | the drag starts at the point |
| JsSelection.SelectionManager.UpdateDrag | game_integrated/test/selection.js:76-80 | the drag end follows the point only while dragging |
| JsSelection.SelectionManager.EndDrag | game_integrated/test/selection.js:82-100 | a drag longer than 10 selects the player's units in its rectangle, a shorter one changes no selection; the drag state resets; after a selecting drag every unit in neither the old nor the new selection keeps its flag |
| JsSelection.SelectionManager.GetDragRect | game_integrated/test/selection.js:102-113 | no rectangle unless a drag with both ends is under way; otherwise the smallest rectangle holding both ends, with non-negative size |
| JsGame.Roster | game_integrated/test/main.js:18-28 | player 0 gets the marines and player 1 the zealots |
| JsGame.RosterCounts | game_integrated/test/main.js:19-33 | `init` gives player 0 fifteen units and player 1 two |
| JsGame.GridApart | game_integrated/test/main.js:20-24 | two marine slots of the 5-by-3 grid are at least 50 apart on one axis |
| JsGame.RosterApart | game_integrated/test/main.js:18-28 | no two spawned units overlap, so the first collision pass moves nobody |
| JsGame.AliveFacts | game_integrated/test/main.js:105-109 | the filter keeps exactly the units with hit points left and keeps a list free of repeats |
| JsGame.AliveAppend | game_integrated/test/main.js:109 | filtering keeps the survivors' relative order |
| JsGame.Turn | game_integrated/test/main.js:98-102 | a unit with no hit points at its turn is skipped and nothing changes; a victim is listed or the ordered target |
| JsGame.Game.constructor | game_integrated/test/main.js:3-16 | a new game holds the roster's units in order, `lastTime` 0 |
| JsGame.Game.Init | game_integrated/test/main.js:18-33 | the seventeen roster units are appended in order, each fresh |
| JsGame.Game.UpdateUnits | game_integrated/test/main.js:98-102 | the unit loop keeps the unit list free of repeats |
| JsGame.Game.CollideLiving | game_integrated/test/main.js:105-106 | one collision sweep over the units still alive |
| JsGame.Game.RemoveDead | game_integrated/test/main.js:109 | the list keeps exactly the units with hit points left, in order |
| JsGame.Game.Update | game_integrated/test/main.js:96-110 | the survivors in order, positions the collision sweep of the post-update positions |
| JsGame.Game.GameLoop | game_integrated/test/main.js:150-166 | `lastTime` moves to the current time; the game advances exactly when the frame is shorter than one second |
| FixedPoint.FromReal | game_integrated/simple_rts/simple_game_advanced.cpp:17 | `fp8(float)` truncates the value toward zero to a multiple of 1/256, keeping its sign |
| FixedPoint.FromInt | game_integrated/simple_rts/simple_game_advanced.cpp:17 | an integer converts to `fp8` exactly |
| FixedPoint.Add | game_integrated/simple_rts/simple_game_advanced.cpp:22 | `+` on raw values is exact |
| FixedPoint.Sub | game_integrated/simple_rts/simple_game_advanced.cpp:23 | `-` on raw values is exact |
| FixedPoint.AddSub | game_integrated/simple_rts/simple_game_advanced.cpp:22-23 | subtraction undoes addition, and addition commutes |
| FixedPoint.Mul | game_integrated/simple_rts/simple_game_advanced.cpp:24 | `*` rounds the product down to a multiple of 1/256 |
| FixedPoint.Div | game_integrated/simple_rts/simple_game_advanced.cpp:25 | `/` rounds the quotient toward zero to a multiple of 1/256, with the quotient's sign |
| FixedPoint.MulOne | game_integrated/simple_rts/simple_game_advanced.cpp:24-25 | `fp8(1)` is neutral for `*` and `/` |
| FixedPoint.LessIsOrder | game_integrated/simple_rts/simple_game_advanced.cpp:27-28 | `<` and `>` on raw values are the order of the numbers, and trichotomous |
| FixedPoint.VAddSub | game_integrated/simple_rts/simple_game_advanced.cpp:38-39 | vector subtraction undoes vector addition |
| FixedPoint.VScale | game_integrated/simple_rts/simple_game_advanced.cpp:40 | scaling by `fp8(1)` leaves a vector unchanged |
| FixedPoint.Length | game_integrated/simple_rts/simple_game_advanced.cpp:42-46 | `length()` is the truncated square root of the raw sum of squares |
| FixedPoint.LengthCovers | game_integrated/simple_rts/simple_game_advanced.cpp:42-46 | the length is at least each coordinate's size |
| FixedPoint.LengthZero | game_integrated/simple_rts/simple_game_advanced.cpp:42-46 | the length is zero only for the zero vector |
| FixedPoint.Normalize | game_integrated/simple_rts/simple_game_advanced.cpp:48-52 | a length below 0.001 gives the zero vector; otherwise each coordinate lies in [-1, 1] with the input's sign |
| FixedPoint.UnitQuotient | game_integrated/simple_rts/simple_game_advanced.cpp:51 | a coordinate divided by a length at least as large lies in [-1, 1] |
| FixedPoint.DirectionIsRemainder | game_integrated/simple_rts/simple_game_advanced.cpp:59 | `v & 255` on a 32-bit `int` is `v` modulo 256, in 0..255 |
| AStar.InMapCells | game_integrated/simple_rts/test_pathfinding.cpp:19-20 | the map holds exactly the cells inside 37 x 25 |
| AStar.CellAtFacts | game_integrated/simple_rts/test_pathfinding.cpp:44-47 | on non-negative coordinates the truncating cast is the floor; a cell's centre lies in it; cell 0 takes in -32 to 32 |
| AStar.OctileFacts | game_integrated/simple_rts/test_pathfinding.cpp:36-40 | the heuristic is the octile distance: zero exactly on the goal, symmetric, non-negative |
| AStar.OctileConsistent | game_integrated/simple_rts/test_pathfinding.cpp:36-40 | one step never lowers the heuristic by more than the step's cost, so it never overestimates |
| AStar.ChainIsRoute | game_integrated/simple_rts/test_pathfinding.cpp:131-138 | following the parents back from a created node gives a walk from the start to it |
| AStar.FoundRoute | game_integrated/simple_rts/test_pathfinding.cpp:82-86 | a found goal ends a route from the start along the parents |
| AStar.Exhausted | game_integrated/simple_rts/test_pathfinding.cpp:77-126 | a search that empties its open list without the goal proves that no route exists |
| AStar.NoRoute | game_integrated/simple_rts/test_pathfinding.cpp:91-125 | a closed set holding the start, closed under steps, and missing the goal admits no route |
| AStar.Initially | game_integrated/simple_rts/test_pathfinding.cpp:68-72 | the start alone, open at cost 0, is a valid search state |
| AStar.CloseNode | game_integrated/simple_rts/test_pathfinding.cpp:88 | closing an open node other than the goal keeps the search state |
| AStar.KnownCell | game_integrated/simple_rts/test_pathfinding.cpp:98 | every created node is a map cell or the start |
| AStar.Attach | game_integrated/simple_rts/test_pathfinding.cpp:108-122 | hanging a new or open node below the closed current node keeps the search state |
| AStar.Consider | game_integrated/simple_rts/test_pathfinding.cpp:93-123 | one neighbour offset: skipped when off the map, blocked (unless the goal) or closed; otherwise created or re-parented; every steppable neighbour is then known |
| AStar.Expand | game_integrated/simple_rts/test_pathfinding.cpp:91-125 | after both neighbour loops every steppable neighbour of the closed nodes is known |
| AStar.Pop | game_integrated/simple_rts/test_pathfinding.cpp:79-88 | a pop ends on the goal or closes one more cell |
| AStar.Search | game_integrated/simple_rts/test_pathfinding.cpp:77-126 | a found goal ends a route; pops stay within the budget and the cells of the map; an exhausted search proves there is no route |
| AStar.PrependStep | game_integrated/simple_rts/test_pathfinding.cpp:133-137 | one step up the parents prepends the node's centre |
| AStar.Reconstruct | game_integrated/simple_rts/test_pathfinding.cpp:128-138 | the path is the centres of the route from the start cell to the goal cell |
| AStar.ObstacleGrid | game_integrated/simple_rts/test_pathfinding.cpp:53-61 | the blocked cells are exactly the cells of obstacle points that fall on the map |
| AStar.BudgetedFindPath | game_integrated/simple_rts/test_pathfinding.cpp:43-151 | at most 1000 pops; a found route gives its cells' centres; otherwise the goal point alone, and within the budget no route exists |
| AdvancedUnits.ConstantRaws | game_integrated/simple_rts/simple_game_advanced.cpp:360-368 | the fp8 constants 0.1, 0.9, 0.5, 10, 60 and 999999 have raw values 25, 230, 128, 2560, 15360 and 255999744 |
| AdvancedUnits.Stats | game_integrated/simple_rts/simple_game_advanced.cpp:98-103 | every archetype has positive hit points, speed, acceleration, attack power and size, a non-negative shield, and a cooldown of at least 0.1 |
| AdvancedUnits.Strike | game_integrated/simple_rts/simple_game_advanced.cpp:454-466 | the damage step on fp8 values equals the shared shield-first rule on their real values: fp8 addition and subtraction lose nothing |
| AdvancedUnits.Waypoints | game_integrated/simple_rts/simple_game_advanced.cpp:268-277 | each route cell becomes the waypoint at its centre, in order |
| AdvancedUnits.PlannedEnds | game_integrated/simple_rts/simple_game_advanced.cpp:268-281 | a planned path is never empty, ends at the goal or the goal cell's centre, and a real route starts at the centre of the unit's own cell |
| AdvancedUnits.UnitCellsOnMap | game_integrated/simple_rts/simple_game_advanced.cpp:195-203 | only map cells are blocked, and each blocked cell holds a living unit |
| AdvancedUnits.UnitGrid | game_integrated/simple_rts/simple_game_advanced.cpp:195-203 | the loop that fills the obstacle grid blocks exactly the on-map cells of living obstacles |
| AdvancedUnits.FindPath | game_integrated/simple_rts/simple_game_advanced.cpp:182-289 | off the map at either end, or with no route, the path is the goal alone; otherwise it is the cell centres of an 8-adjacent route around the blocked cells, the goal cell exempt |
| AdvancedUnits.OthersMembers | game_integrated/simple_rts/simple_game_advanced.cpp:307-312 | the obstacles a unit plans around are exactly the other living units |
| AdvancedUnits.NotAmongOthers | game_integrated/simple_rts/simple_game_advanced.cpp:308 | a unit is never among its own obstacles |
| AdvancedUnits.Lives | game_integrated/simple_rts/simple_game_advanced.cpp:473 | one flag per unit, in order, set exactly when the unit is not dead |
| AdvancedUnits.Scan | game_integrated/simple_rts/simple_game_advanced.cpp:468-484 | the fold of findNearestEnemy over a prefix only ever reports an index inside it |
| AdvancedUnits.ScanNearest | game_integrated/simple_rts/simple_game_advanced.cpp:468-484 | the fold reports no unit and 999999 or a living enemy at its reported distance; no living enemy is nearer, and every earlier one is strictly farther |
| AdvancedUnits.Find | game_integrated/simple_rts/simple_game_advanced.cpp:409 | a target id resolves to its first position in the unit list, or to nothing when no unit carries it |
| AdvancedUnits.Unit.constructor | game_integrated/simple_rts/simple_game_advanced.cpp:135-143 | a new unit rests where it stands, at full hit points and shield, with no cooldown, order, path or selection |
| AdvancedUnits.Unit.Obstacles | game_integrated/simple_rts/simple_game_advanced.cpp:307-312 | the obstacle loop gathers the other living units in list order |
| AdvancedUnits.Unit.MoveTo | game_integrated/simple_rts/simple_game_advanced.cpp:300-325 | the target becomes the move target, any attack order is dropped, and the new path is planned from the unit's position around the other living units |
| AdvancedUnits.Unit.Attack | game_integrated/simple_rts/simple_game_advanced.cpp:327-343 | the attack target is set; a present target also becomes the move target with a fresh path, and no target leaves the path alone |
| AdvancedUnits.Unit.UpdateMovement | game_integrated/simple_rts/simple_game_advanced.cpp:359-406 | position, velocity, cursor and flags become those of Move |
| AdvancedUnits.Unit.LiveTarget | game_integrated/simple_rts/simple_game_advanced.cpp:409 | an ordered target is acted on only when it is in the list and alive |
| AdvancedUnits.Unit.DecideSound | game_integrated/simple_rts/simple_game_advanced.cpp:408-452 | every shot is at a listed unit within range with the cooldown below 0.1; a stopping shot and a chase are at the ordered target; an automatic shot is at a living enemy no living enemy is nearer than; a chase is after a target out of range once the path is used up; the ordered target is acted on exactly when it is listed and alive; without one, the unit fires whenever a living enemy is strictly within range and the cooldown is below 0.1 |
| AdvancedUnits.Unit.FindNearestEnemy | game_integrated/simple_rts/simple_game_advanced.cpp:468-484 | the loop returns the unit the Scan fold picks over the whole list |
| AdvancedUnits.Unit.PerformAttack | game_integrated/simple_rts/simple_game_advanced.cpp:454-466 | the target takes the attacker's raw attack power, shield first, with no armour |
| AdvancedUnits.Unit.Chase | game_integrated/simple_rts/simple_game_advanced.cpp:413-429 | chasing makes the target's position the move target and plans a path to it around the other living units |
| AdvancedUnits.Unit.Shoot | game_integrated/simple_rts/simple_game_advanced.cpp:430-439 | firing applies performAttack to the target and restarts the cooldown |
| AdvancedUnits.Unit.Engage | game_integrated/simple_rts/simple_game_advanced.cpp:409-439 | carries out `Decide` for a live ordered target: a chase makes the target's position the move target and plans a path to it around the other living units; following keeps path and flags; stopping clears the path flags; a stopping shot strikes the target shield first and restarts the cooldown; only the target's shield and hit points may change |
| AdvancedUnits.Unit.AutoAttack | game_integrated/simple_rts/simple_game_advanced.cpp:440-451 | carries out `Decide` without an ordered target: fire at the nearest living enemy when it is strictly in range and the cooldown is below 0.1, striking it and restarting the cooldown, or do nothing; no other unit is hurt |
| AdvancedUnits.Unit.UpdateCombat | game_integrated/simple_rts/simple_game_advanced.cpp:408-452 | carries out `Decide` for the living units and the live ordered target: a chase makes the target's position the move target, restarts the cursor and plans a path around the other living units; otherwise move target, path and cursor stay; a stop clears the path flags; a shot strikes the unit fired at shield first and restarts the cooldown; no other listed unit is hurt |
| AdvancedUnits.Unit.Advance | game_integrated/simple_rts/simple_game_advanced.cpp:346-353 | the cooldown becomes `Cool` of the old one, the motion becomes `Move`'s, the live ordered target stays the same, and the other living units stay the same units on the same cells |
| AdvancedUnits.Unit.Update | game_integrated/simple_rts/simple_game_advanced.cpp:345-357 | cooldown, then movement, then combat: position and velocity are `Move`'s; the action is `Decide` with the cooled cooldown, the units alive at the start and whether the moved path is used up; a shot restarts the cooldown, which is otherwise the cooled one; a chase replans to the target around the cells the other living units held at the start, a stop clears the path flags, other actions keep `Move`'s cursor and flags; a shot strikes the unit fired at and no other listed unit is hurt |
| AdvancedUnits.Cool | game_integrated/simple_rts/simple_game_advanced.cpp:347-350 | a positive cooldown drops by deltaTime*60 and stops at zero; a non-positive one is left alone |
| AdvancedUnits.Move | game_integrated/simple_rts/simple_game_advanced.cpp:359-406 | the cursor advances by one exactly when a waypoint is within 10, leaving position and velocity; flags only drop, and drop once the path is used up |
| AdvancedUnits.DecayShrinks | game_integrated/simple_rts/simple_game_advanced.cpp:360-368 | decaying by 0.9 never makes a velocity component larger |
| AdvancedUnits.MoveCoast | game_integrated/simple_rts/simple_game_advanced.cpp:360-368 | a unit with neither path nor move order only slows down, keeps its cursor and flags, and a unit at rest stays put |
| AdvancedUnits.MoveSteer | game_integrated/simple_rts/simple_game_advanced.cpp:387-401 | a unit steering to a waypoint ends the step with each velocity component within its top speed |
| AdvancedGame.Push | game_integrated/simple_rts/simple_game_advanced.cpp:494-503 | the two pushes cancel exactly in fixed point, so the pair's sum of centres is kept; a pair that does not overlap, or is within 0.1, does not move |
| AdvancedGame.PushAxis | game_integrated/simple_rts/simple_game_advanced.cpp:499-502 | the push on each axis points the way the difference does, so it never shrinks that axis's separation |
| AdvancedGame.PushSpreads | game_integrated/simple_rts/simple_game_advanced.cpp:494-503 | a push never brings two centres closer along x or along y |
| AdvancedGame.PairStep | game_integrated/simple_rts/simple_game_advanced.cpp:491-503 | the inner-loop body on values changes only the two units of the pair |
| AdvancedGame.TotalUpdate | game_integrated/simple_rts/simple_game_advanced.cpp:500-501 | replacing one centre changes the sum of the centres by the difference |
| AdvancedGame.SweepKeepsTotal | game_integrated/simple_rts/simple_game_advanced.cpp:489-507 | a whole collision pass keeps the sum of the centres exactly, so the centroid never moves |
| AdvancedGame.SweepKeepsDead | game_integrated/simple_rts/simple_game_advanced.cpp:491 | a collision pass never moves a dead unit |
| AdvancedGame.Positions | game_integrated/simple_rts/simple_game_advanced.cpp:489-507 | the centres of the units, position by position |
| AdvancedGame.Sizes | game_integrated/simple_rts/simple_game_advanced.cpp:495 | the archetype sizes of the units, position by position |
| AdvancedGame.CheckPair | game_integrated/simple_rts/simple_game_advanced.cpp:491-503 | one inner-loop iteration sets the two units' centres to those PairStep gives; every other unit stays where it was |
| AdvancedGame.CheckRow | game_integrated/simple_rts/simple_game_advanced.cpp:490-505 | one outer-loop iteration does what the pass's pairs for that row do, in order |
| AdvancedGame.ResolveCollisions | game_integrated/simple_rts/simple_game_advanced.cpp:489-507 | every unordered pair i<j is processed once, in index order, each seeing the centres the earlier pushes left |
| AdvancedGame.LivingFacts | game_integrated/simple_rts/simple_game_advanced.cpp:670-674 | the erase keeps exactly the listed units that are alive, and a list without repeats stays so |
| AdvancedGame.Game.constructor | game_integrated/simple_rts/simple_game_advanced.cpp:524-525 | a game starts with no units |
| AdvancedGame.Game.UpdateUnits | game_integrated/simple_rts/simple_game_advanced.cpp:662-666 | the unit loop runs every unit alive at its turn and leaves the list without repeats |
| AdvancedGame.Game.Update | game_integrated/simple_rts/simple_game_advanced.cpp:661-675 | units update, one collision pass runs from the centres they left, and the dead leave the list with the survivors in order |
| AdvancedGame.Game.RemoveDead | game_integrated/simple_rts/simple_game_advanced.cpp:670-674 | the list keeps exactly its living units, in order |
| FloatRules.Stats | game_integrated/simple_rts/simple_rts.cpp:43-47 | every archetype has positive hit points, speed, attack power, cooldown and size, and only the Zealot has a shield |
| FloatRules.Cool | game_integrated/simple_rts/simple_rts.cpp:93-95 | a positive cooldown drops by deltaTime*60 with no floor; a cooldown at or below zero stays |
| FloatRules.CoolOvershoots | game_integrated/simple_rts/simple_rts.cpp:93-95 | a frame longer than the cooldown leaves it below zero: 0.5 becomes -0.5 after a frame of 1/60 |
| FloatRules.Normalize | game_integrated/simple_rts/simple_rts.cpp:18-21 | the unit vector along the difference, or zero when the length is not positive |
| FloatRules.StepDistance | game_integrated/simple_rts/simple_rts.cpp:105-114 | a movement step moves straight along the line to the goal by exactly the move speed |
| FloatRules.PairStep | game_integrated/simple_rts/simple_rts.cpp:186-198 | the inner-loop body on values changes only the two units of the pair |
| FloatRules.ResolveByNormalize | game_integrated/simple_rts/simple_rts.cpp:192-197 | the push written as normalize() times half the overlap is the push of the JavaScript collision rule |
| FloatRules.SweepKeepsTotal | game_integrated/simple_rts/simple_rts.cpp:183-202 | a whole collision pass keeps the sum of the centres, so the centroid never moves |
| FloatRules.SweepKeepsDead | game_integrated/simple_rts/simple_rts.cpp:187 | a collision pass never moves a dead unit |
| FloatRules.PairStepSeparates | game_integrated/simple_rts/simple_rts.cpp:192-197 | a pushed pair ends exactly the sum of their sizes apart, on the same ray as before |
| SimpleRts.Scan | game_integrated/simple_rts/simple_rts.cpp:162-177 | the scan over a prefix of the list only ever reports an index inside it |
| SimpleRts.ScanNearest | game_integrated/simple_rts/simple_rts.cpp:162-177 | the scan reports nothing and 999999, or an eligible unit at its reported distance; no eligible unit is nearer, and every earlier one is strictly farther |
| SimpleRts.Nearest | game_integrated/simple_rts/simple_rts.cpp:162-177 | the search loop returns the index the scan picks over the whole list |
| SimpleRts.TravelDistance | game_integrated/simple_rts/simple_rts.cpp:105-114 | a unit more than 3 from its target point ends exactly one step closer, or past it by the step less the distance; a nearer unit does not move |
| SimpleRts.Unit.constructor | game_integrated/simple_rts/simple_rts.cpp:63-70 | a new unit stands at its position with full hit points and shield, no cooldown, no order and its target point where it stands |
| SimpleRts.Unit.MoveTo | game_integrated/simple_rts/simple_rts.cpp:77-80 | the target point is set and the attack order is dropped |
| SimpleRts.Unit.Attack | game_integrated/simple_rts/simple_rts.cpp:83-88 | the attack order is set, and a present target's position becomes the target point |
| SimpleRts.Unit.UpdateMovement | game_integrated/simple_rts/simple_rts.cpp:105-114 | the new position is the step Travel gives |
| SimpleRts.Unit.LiveTarget | game_integrated/simple_rts/simple_rts.cpp:118 | the ordered target is acted on only when it is present and alive |
| SimpleRts.Unit.DecideSound | game_integrated/simple_rts/simple_rts.cpp:116-142 | every shot is at a living unit within range with the cooldown at or below zero; an ordered shot is at the ordered target and an automatic one at a nearest living enemy; a chase is after a live target out of range; the ordered target is acted on exactly when alive; without one, the unit fires whenever a living enemy is within range and the cooldown has run out |
| SimpleRts.Unit.FindNearestEnemy | game_integrated/simple_rts/simple_rts.cpp:162-177 | the loop returns the living enemy the scan picks over the whole list |
| SimpleRts.Unit.PerformAttack | game_integrated/simple_rts/simple_rts.cpp:144-160 | the target takes the attack power by the shield-first rule: the shield drains first, overflow spills into hit points and the shield is clamped to 0 |
| SimpleRts.Unit.UpdateCombat | game_integrated/simple_rts/simple_rts.cpp:116-142 | carries out `Decide` for the living units and the live ordered target: a chase moves the target point onto the target; a shot strikes the victim shield first and resets the cooldown; otherwise target point and cooldown stay; no other listed unit or ordered target is hurt |
| SimpleRts.Unit.Update | game_integrated/simple_rts/simple_rts.cpp:91-102 | the cooldown runs down without a floor (`Cool`), the unit steps toward its target point as `Travel` says, then acts as `Decide` says with the cooled cooldown and the units alive at the start: a chase moves the target point onto the target, a shot strikes the victim shield first and restarts the cooldown; no other listed unit or ordered target is hurt |
| SimpleRts.Positions | game_integrated/simple_rts/simple_rts.cpp:183-202 | the centres of the units, position by position |
| SimpleRts.Lives | game_integrated/simple_rts/simple_rts.cpp:187 | the liveness of the units, position by position |
| SimpleRts.Sizes | game_integrated/simple_rts/simple_rts.cpp:191 | the archetype sizes of the units, position by position |
| SimpleRts.CheckPair | game_integrated/simple_rts/simple_rts.cpp:185-199 | one inner-loop iteration sets the two centres to those PairStep gives; every other unit stays |
| SimpleRts.CheckRow | game_integrated/simple_rts/simple_rts.cpp:185-200 | one outer-loop iteration does what the pass's pairs for that row do, in order |
| SimpleRts.ResolveCollisions | game_integrated/simple_rts/simple_rts.cpp:183-202 | every unordered pair i<j is processed once, in index order, each seeing the centres the earlier pushes left |
| SimpleRts.LivingFacts | game_integrated/simple_rts/simple_rts.cpp:243-247 | the erase keeps exactly the listed units that are alive, and a list without repeats stays so |
| SimpleRts.Count | game_integrated/simple_rts/simple_rts.cpp:275-281 | the count of living units of an owner is at most the number of units |
| SimpleRts.CountNone | game_integrated/simple_rts/simple_rts.cpp:283-285 | a side counts no units exactly when every unit it owns is dead |
| SimpleRts.Command | game_integrated/simple_rts/simple_rts.cpp:252-269 | the order commandAttack gives a unit names a unit of the list |
| SimpleRts.CommandNearest | game_integrated/simple_rts/simple_rts.cpp:250-273 | each order sends a living unit of player 0 at a nearest living unit of player 1; a living player-0 unit gets none only when no living player-1 unit is within 999999 |
| SimpleRts.Game.constructor | game_integrated/simple_rts/simple_rts.cpp:211 | a game starts with no units and the id counter at 0 |
| SimpleRts.Game.UpdateUnits | game_integrated/simple_rts/simple_rts.cpp:234-238 | the unit loop runs every unit alive at its turn and leaves the list without repeats |
| SimpleRts.Game.RemoveDead | game_integrated/simple_rts/simple_rts.cpp:243-247 | the list keeps exactly its living units, in order |
| SimpleRts.Game.Update | game_integrated/simple_rts/simple_rts.cpp:232-248 | units update, one collision pass runs from the centres they left, and the dead leave the list with survivors in order |
| SimpleRts.Game.CommandUnit | game_integrated/simple_rts/simple_rts.cpp:252-269 | one iteration issues the order Command gives, and leaves the unit alone when there is none |
| SimpleRts.Game.CommandAttack | game_integrated/simple_rts/simple_rts.cpp:250-273 | every living player-0 unit gets the attack Command gives it at the time of the call; units without one keep their order |
| SimpleRts.Game.CountUnits | game_integrated/simple_rts/simple_rts.cpp:275-281 | the loop returns the number of living units of the owner |
| SimpleRts.Game.IsGameOver | game_integrated/simple_rts/simple_rts.cpp:283-285 | the game is over exactly when one side has no living unit left |
| SdlSim.Scan | game_integrated/simple_rts/simple_game_sdl.cpp:176-191 | the scan over a prefix of the list only ever reports an index inside it |
| SdlSim.ScanNearest | game_integrated/simple_rts/simple_game_sdl.cpp:176-191 | the scan reports nothing and 999999, or a living enemy at its reported distance; no living enemy is nearer, and every earlier one is strictly farther |
| SdlSim.Walk | game_integrated/simple_rts/simple_game_sdl.cpp:114-132 | a movement frame keeps the path cursor readable: the path is empty with index 0, or the index lies inside it |
| SdlSim.WalkFacts | game_integrated/simple_rts/simple_game_sdl.cpp:114-132 | without a path the unit stays; within 3 of its waypoint it stays and the cursor advances, clearing the path and resetting the index after the last waypoint; otherwise it ends exactly one step nearer, or past the waypoint by the step less the distance |
| SdlSim.Unit.constructor | game_integrated/simple_rts/simple_game_sdl.cpp:66-74 | a new unit stands at its position with full hit points and shield, no cooldown, no order and no path |
| SdlSim.Unit.MoveTo | game_integrated/simple_rts/simple_game_sdl.cpp:80-88 | the path becomes exactly the one waypoint, the index 0, the target point the target, and the attack order is dropped |
| SdlSim.Unit.Attack | game_integrated/simple_rts/simple_game_sdl.cpp:91-96 | the attack order is set and a present target's position becomes the target point; the path is untouched |
| SdlSim.Unit.UpdateMovement | game_integrated/simple_rts/simple_game_sdl.cpp:114-132 | position, path and index become those Walk gives |
| SdlSim.Unit.LiveTarget | game_integrated/simple_rts/simple_game_sdl.cpp:137 | the ordered target is acted on only when present and alive |
| SdlSim.Unit.DecideSound | game_integrated/simple_rts/simple_game_sdl.cpp:135-159 | every shot is at a living unit within range with the cooldown at or below zero; an ordered shot is at the ordered target and an automatic one at a nearest living enemy; a chase is after a live target out of range; the ordered target is acted on exactly when alive; without one, the unit fires whenever a living enemy is within range and the cooldown has run out |
| SdlSim.Unit.FindNearestEnemy | game_integrated/simple_rts/simple_game_sdl.cpp:176-191 | the loop returns the living enemy the scan picks over the whole list |
| SdlSim.Unit.PerformAttack | game_integrated/simple_rts/simple_game_sdl.cpp:162-174 | the target takes the attack power by the shield-first rule with overflow into hit points |
| SdlSim.Unit.UpdateCombat | game_integrated/simple_rts/simple_game_sdl.cpp:135-159 | carries out `Decide` for the living units and the live ordered target: a chase calls moveTo on the target's position, which drops the attack order and makes that position the one waypoint; otherwise order, target point and path stay; a shot strikes the victim shield first and resets the cooldown; no other listed unit or ordered target is hurt |
| SdlSim.Unit.Advance | game_integrated/simple_rts/simple_game_sdl.cpp:100-107 | the cooldown becomes `Cool` of the old one and position, path and index become those `Walk` gives |
| SdlSim.Unit.Update | game_integrated/simple_rts/simple_game_sdl.cpp:99-110 | the cooldown runs down without a floor and the unit walks as `Walk` says, then acts as `Decide` says with the cooled cooldown and the units alive at the start: a chase moves the target point to the ordered target's position, drops the attack order and makes that point the one waypoint, index 0; otherwise the walked path and index stay; a shot strikes the victim shield first and restarts the cooldown; no other listed unit or ordered target is hurt |
| SdlSim.Positions | game_integrated/simple_rts/simple_game_sdl.cpp:197-215 | the centres of the units, position by position |
| SdlSim.Lives | game_integrated/simple_rts/simple_game_sdl.cpp:197-215 | the liveness of the units, position by position |
| SdlSim.Sizes | game_integrated/simple_rts/simple_game_sdl.cpp:197-215 | the archetype sizes of the units, position by position |
| SdlSim.CheckPair | game_integrated/simple_rts/simple_game_sdl.cpp:199-213 | one inner-loop iteration sets the two centres to those PairStep gives; every other unit stays |
| SdlSim.CheckRow | game_integrated/simple_rts/simple_game_sdl.cpp:199-214 | one outer-loop iteration does what the pass's pairs for that row do, in order |
| SdlSim.ResolveCollisions | game_integrated/simple_rts/simple_game_sdl.cpp:197-215 | every unordered pair i<j is processed once, in index order, each seeing the centres the earlier pushes left |
| SdlSim.LivingFacts | game_integrated/simple_rts/simple_game_sdl.cpp:403-409 | the erase keeps exactly the listed units that are alive, and a list without repeats stays so |
| SdlSim.FirstHit | game_integrated/simple_rts/simple_game_sdl.cpp:358-368 | the search stops at a living unit whose circle holds the point, and no earlier unit is such a hit |
| SdlSim.FirstHitAt | game_integrated/simple_rts/simple_game_sdl.cpp:358-368 | once a hit is found at some index, a longer search still stops there |
| SdlSim.Picks | game_integrated/simple_rts/simple_game_sdl.cpp:370-391 | the rectangle picks are exactly the listed living player-0 units inside the rectangle, borders included |
| SdlSim.Game.constructor | game_integrated/simple_rts/simple_game_sdl.cpp:219-231 | a game starts with no units, no selection and the id counter at 0 |
| SdlSim.Game.FindUnitAt | game_integrated/simple_rts/simple_game_sdl.cpp:358-368 | the loop returns the first living unit within its size of the point, or none |
| SdlSim.Game.SelectUnitsInRect | game_integrated/simple_rts/simple_game_sdl.cpp:370-391 | the old selection loses its flags; the selection becomes the living player-0 units inside the normalised inclusive rectangle, in list order, each flagged; every unit in neither the old nor the new selection keeps its flag |
| SdlSim.Game.PickUnit | game_integrated/simple_rts/simple_game_sdl.cpp:382-389 | one iteration appends and flags the unit exactly when it is picked |
| SdlSim.Game.ClearFlags | game_integrated/simple_rts/simple_game_sdl.cpp:372-374 | every unit of the old selection loses its flag |
| SdlSim.Game.OnRightClick | game_integrated/simple_rts/simple_game_sdl.cpp:342-356 | with nothing selected nothing happens; otherwise each selected unit attacks the clicked unit when it belongs to another player, keeping its path, and otherwise moves to the point |
| SdlSim.Game.OrderUnit | game_integrated/simple_rts/simple_game_sdl.cpp:347-354 | one iteration gives the unit the attack or the move the click calls for |
| SdlSim.Game.UpdateUnits | game_integrated/simple_rts/simple_game_sdl.cpp:395-399 | the unit loop runs every unit alive at its turn; orders are only ever dropped, never set |
| SdlSim.Game.RemoveDead | game_integrated/simple_rts/simple_game_sdl.cpp:404-409 | the list keeps exactly its living units, in order |
| SdlSim.Game.Update | game_integrated/simple_rts/simple_game_sdl.cpp:393-410 | units update, one collision pass runs from the centres they left, and the dead leave the list with survivors in order |
| Pcx.U16 | game_integrated/ui_custom.h:795-798 | a little-endian 16-bit field is below 2^16 |
| Pcx.Repeat | game_integrated/ui_custom.h:832-835 | a run is exactly n copies of its byte |
| Pcx.Expand | game_integrated/ui_custom.h:828-841 | a successful pixel expansion yields exactly the number of bytes asked for |
| Pcx.Load | game_integrated/ui_custom.h:786-844 | an accepted file has identifier 0x0a, encoding 1, 8 bits per pixel, zero offsets and no padding, and decodes to width*height bytes with width last_x+1 and height last_y+1; a bad identifier, encoding, depth or offset gives its own error, in the order the header is checked |
| Pcx.LoadAccepts | game_integrated/ui_custom.h:810-841 | once the header passes every check, the image has the header's size and whatever the pixel expansion gives, its failure included |
| Pcx.PrependAppend | game_integrated/ui_custom.h:830-840 | writing p then q ahead of a result is writing p+q ahead of it |
| Pcx.LoadPcxData | game_integrated/ui_custom.h:786-844 | the loader on a buffer returns exactly Load |
| Pcx.ExpandInto | game_integrated/ui_custom.h:825-841 | the pixel loop fills the buffer as Expand does, or fails as Expand does |
| Pcx.DecodeStep | game_integrated/ui_custom.h:829-840 | one turn of the pixel loop keeps what is left to expand, behind what the buffer now holds, equal to what was left before |
| Pcx.WriteRun | game_integrated/ui_custom.h:833-836 | the run loop succeeds exactly when the run fits, and then appends exactly the copies behind the untouched prefix |
| Pcx.RunLength | game_integrated/ui_custom.h:831 | a run a run byte can describe has between 1 and 63 equal bytes |
| Pcx.ExpandEncode | game_integrated/ui_custom.h:828-841 | expanding the run-length encoding of any pixels gives them back, whatever follows |
| Pcx.ExpandLiteral | game_integrated/ui_custom.h:837-839 | the round trip holds across a literal byte |
| Pcx.ExpandRun | game_integrated/ui_custom.h:830-836 | the round trip holds across a run |
| Pcx.Header | game_integrated/ui_custom.h:790-808 | a header for a given size is 128 bytes with the fields the loader checks |
| Pcx.LoadEncoded | game_integrated/ui_custom.h:786-844 | a valid header followed by the encoding of exactly width*height pixels loads as that image, whatever follows |
| ActionsPerMinute.Push | game_integrated/ui_custom.h:1157-1158 | a new bucket goes at the back; at the limit the oldest bucket is dropped first |
| ActionsPerMinute.PushBounded | game_integrated/ui_custom.h:1157 | pushing keeps the history at most 238 buckets of non-negative counts |
| ActionsPerMinute.AsWrittenSplitsAFrame | game_integrated/ui_custom.h:1153-1161 | as written, two actions in frame 24 from an empty history open two buckets, [1, 1], instead of one bucket with 2 |
| ActionsPerMinute.AfterAction | game_integrated/ui_custom.h:1153-1161 | an action records its frame's bucket, keeps the rate, keeps the history bounded and leaves it non-empty |
| ActionsPerMinute.SumBumpLast | game_integrated/ui_custom.h:1155 | counting one more action in the last bucket raises the total by one |
| ActionsPerMinute.AddActionCounts | game_integrated/ui_custom.h:1153-1161 | below the history limit each action adds exactly one to the history's total |
| ActionsPerMinute.SameFrameJoins | game_integrated/ui_custom.h:1153-1161 | a second action in the same frame joins the first's bucket: no bucket is opened and the total grows by one |
| ActionsPerMinute.AfterUpdate | game_integrated/ui_custom.h:1162-1176 | an update keeps the history bounded and non-empty and records the frame's bucket |
| ActionsPerMinute.SumNonneg | game_integrated/ui_custom.h:1169-1172 | the total of non-negative buckets is non-negative |
| ActionsPerMinute.SumAtMost | game_integrated/ui_custom.h:1169-1172 | n buckets of at most m actions hold at most n*m |
| ActionsPerMinute.UpdateEmpty | game_integrated/ui_custom.h:1164-1172 | an update on an empty history gives the history [0] and a rate of 0 |
| ActionsPerMinute.UpdateAtMost | game_integrated/ui_custom.h:1162-1176 | the rate is never negative and never above the scaled rate of the busiest bucket |
| ActionsPerMinute.AverageAtMost | game_integrated/ui_custom.h:1172 | the scaled average of buckets holding at most m each is at most m scaled |
| ActionsPerMinute.Apm.constructor | game_integrated/ui_custom.h:1148-1151 | the counter starts with an empty history, rate 0 and bucket 0 |
| ActionsPerMinute.Apm.AddAction | game_integrated/ui_custom.h:1153-1161 | the counter's state becomes AfterAction's, and the history stays bounded |
| ActionsPerMinute.Apm.Update | game_integrated/ui_custom.h:1162-1176 | the counter's state becomes AfterUpdate's, summing by a loop, and the history stays bounded |
| UiColor.Pack | game_integrated/ui_custom.h:80 | the packed word holds blue in its low byte and alpha in its top byte |
| UiColor.ChPack | game_integrated/ui_custom.h:79-80 | each byte given to pack is read back by ch at shift 24, 16, 8 and 0 |
| UiColor.PackCh | game_integrated/ui_custom.h:79-80 | every colour is the pack of its four bytes |
| UiColor.Mix | game_integrated/ui_custom.h:104-106 | a blended channel lies between the source and destination channels |
| UiColor.MixBetween | game_integrated/ui_custom.h:104-106 | the weighted channel sum lies between 255 times each channel |
| UiColor.AlphaBlendOver | game_integrated/ui_custom.h:97-108 | a transparent source leaves the destination; an opaque source replaces it |
| UiColor.BlendBetween | game_integrated/ui_custom.h:97-108 | a partly transparent source gives an opaque colour whose red, green and blue each lie between the source's and the destination's |
| UiFunctions.DepthOrder | game_integrated/ui_custom.h:1282-1290 | bit 0 of the depth key is the turret flag, and the y field is zero when the elevation is above 4 |
| UiFunctions.DepthKey | game_integrated/ui_custom.h:1283-1289 | the packed key carries the turret flag in bit 0, and a zero y term leaves the y field zero |
| UiFunctions.DepthKeyFields | game_integrated/ui_custom.h:1283-1289 | with an 18-bit elevation and a 13-bit y term the fields do not overlap: the key is elevation*2^14 + y*2 + turret |
| UiFunctions.DepthKeySorts | game_integrated/ui_custom.h:1282-1290 | the key orders sprites by elevation, then by y, then turrets after the rest |
| UiFunctions.BarWidth | game_integrated/ui_custom.h:1825-1827 | the health-bar width is at least 19 and one more than a multiple of 3, the largest such not above the size |
| UiFunctions.FilledWidth | game_integrated/ui_custom.h:1844-1852 | the filled width is always a multiple of 3 that is at least 3 |
| UiFunctions.FilledWidthFits | game_integrated/ui_custom.h:1844-1852 | the filled width is within one of the exact share, and inside the bar for a percentage between 0 and 100 |
| UiFunctions.FilledWidthMonotone | game_integrated/ui_custom.h:1844-1852 | a larger percentage never fills less of the bar |
| UiFunctions.RankName | game_integrated/ui_custom.h:677-685 | rank 0 has no label, ranks 1 to 3 get "+1" to "+3", and any other rank gets "+3" |
| UiFunctions.Clamp | game_integrated/ui_custom.h:1346-1347 | the volume is clamped into 0..100 and left alone inside it |
| UiFunctions.Level | game_integrated/ui_custom.h:1351 | a channel's level stays within 0..124 for volumes within 0..100 |
| UiFunctions.Levels | game_integrated/ui_custom.h:1349-1353 | every call names a playing channel and sets it to its level |
| UiFunctions.LevelsCover | game_integrated/ui_custom.h:1349-1353 | every playing channel gets a call, at its own level |
| UiFunctions.LevelsOrdered | game_integrated/ui_custom.h:1349-1353 | the calls come in strictly increasing channel order, so no channel is set twice |
| UiFunctions.Mixer.SetVolume | game_integrated/ui_custom.h:1345-1354 | the master volume becomes the clamped volume and the calls sent are exactly Levels |
| UiSelection.Find | game_integrated/ui_custom.h:3609-3612 | the first position of the id, or the length when absent, so the position is inside exactly when the id is present |
| UiSelection.RemoveFirst | game_integrated/ui_custom.h:3624-3628 | removing an absent id changes nothing; a present one leaves exactly once: the elements before it keep their places and those after it move up by one |
| UiSelection.RemoveFirstFromSet | game_integrated/ui_custom.h:3624-3628 | from a list without duplicates, removal leaves no trace of the id, keeps every other id and keeps the list without duplicates |
| UiSelection.Selection.constructor | game_integrated/ui_custom.h:3607 | the selection starts empty |
| UiSelection.Selection.IndexOf | game_integrated/ui_custom.h:3609-3612 | the find loop returns Find |
| UiSelection.Selection.IsSelected | game_integrated/ui_custom.h:3609-3612 | is_selected is membership |
| UiSelection.Selection.Add | game_integrated/ui_custom.h:3614-3618 | an id already present is not added again; otherwise it is appended, and the list stays without duplicates |
| UiSelection.Selection.Clear | game_integrated/ui_custom.h:3620-3622 | the selection becomes empty |
| UiSelection.Selection.Remove | game_integrated/ui_custom.h:3624-3628 | the selection becomes RemoveFirst of the old one: the id is gone and the list stays without duplicates |
| UiSelection.FindFirst | game_integrated/ui_custom.h:3609-3612 | a position before which the id does not occur, and where it does or the list ends, is Find |
| UiColor.ChDigits | game_integrated/ui_custom.h:79 | the four bytes `ch` reads are the digits of the word in base 256 |
| FixedPoint.ISqrt | game_integrated/simple_rts/simple_game_advanced.cpp:42-46 | the integer square root is the largest r with r*r not above its argument |
| JsCollision.Sizes | game_integrated/simple_rts/collision.js:9 | the radii of the units, one per unit, in order |
| JsCollision.PairStep | game_integrated/simple_rts/collision.js:38-40 | the inner-loop turn on positions keeps one position per unit |
| JsCollision.Sweep | game_integrated/simple_rts/collision.js:35-43 | processing a list of pairs in order keeps one position per unit |
| AdvancedGame.Sweep | game_integrated/simple_rts/simple_game_advanced.cpp:489-507 | processing a list of pairs in order keeps one centre per unit |
| FloatRules.Sweep | game_integrated/simple_rts/simple_rts.cpp:183-202 | processing a list of pairs in order keeps one centre per unit |

## Left out

- Rendering and output are not modelled: `renderer.js`, `Game.render`/`drawPath`, the SDL `render`/`drawCircle`/`drawHealthBar` code, and the drawing half of the health bar. These only write pixels, and console logging (`console.log`, `std::cout`, `printStatus`) only prints text.
- Input plumbing is not modelled: DOM listeners, SDL `handleEvents`, and the SDL port's `onLeftClick`/`onLeftRelease` with their double-click timing. These translate device events into calls the model does include: `onRightClick`, `findUnitAt` and `selectUnitsInRect`.
- In the fixed-point port, the `Game` input handlers (`onLeftClick`, `onLeftRelease`, `onRightClick`, `findUnitAt`, `selectUnitsInRect`) are not modelled. The SDL port's versions of the same handlers are.
- The `init` rosters of the three C++ `Game` classes are not modelled. Their constructors start from an empty list. The JavaScript roster in `main.js` is modelled.
- Wall-clock time and randomness are inputs: `performance.now`, `requestAnimationFrame`, the FPS counters, and the `Math.random` unit ids. Ids come from a counter instead.
- Floating point is modelled as exact reals. Float rounding and the `float` width are not modelled.
- `sqrt` is the abstract Euclidean `norm`.
- `Direction::toVector`/`fromVector` (trigonometry) are not modelled. The `Direction` constructor's wrap to 0..255 is.
- FixedPoint.Mul: the raw product is not truncated to 32 bits. The same holds for `Div`'s shift, and for `Add`/`Sub` on extreme raw values. Raw values are unbounded integers, so overflow of the C++ `int` is out of scope.
- UiFunctions.FilledWidth: `percent * width` is computed without 32-bit overflow. It cannot overflow for a percentage within 0..100 and a bar narrower than 2^24.
- UiFunctions.Level: the channel and master volumes are multiplied without 32-bit overflow.
- ActionsPerMinute.AfterUpdate: the sum of the history is not truncated to 32 bits. This cannot matter for fewer than 2^31 actions per window.
- UiFunctions.DepthKeySorts: holds only for elevations below 2^18 and y coordinates below 2^13. Beyond that the shifted fields overlap in the 32-bit word. `DepthOrder` itself wraps `elevation_level` and `y` to 32 bits as C++ does.
- AStar.Search: the C++ A* updates `g`, `f` and the parent of a node that is already in the `std::priority_queue`. The heap's pop order is therefore not the order of the keys. The model pops any open node, and every contract holds for every pop order. Which of several routes is found, and whether it is shortest, is not stated.
- GridPath.Pathfinder.FindPath: breadth-first optimality is not proved. On an obstacle-free grid the path has max(|dx|, |dy|) waypoints; that property is not part of this model. What is proved is that the search expands in insertion order, that every path is a route, and that the fallback applies.
- JsGame.Game.UpdateUnits: states only that the list stays without repeats. What each unit does on its turn is stated by `JsUnitTick.Update` and `JsGame.Turn`.
- AdvancedGame.Game.UpdateUnits: states only that the list stays without repeats. The per-unit effect is stated by `AdvancedUnits.Unit.Update`.
- SimpleRts.Game.UpdateUnits: states only that the list stays without repeats. The per-unit effect is stated by `SimpleRts.Unit.Update`.
- SdlSim.Game.UpdateUnits: states only that the list stays without repeats and that orders are only ever dropped. The per-unit effect is stated by `SdlSim.Unit.Update`.
- Dangling `Unit*` targets of the C++ ports are not modelled. In the fixed-point port, a target erased from the list becomes an id that resolves to nothing. In the floating-point ports it stays a readable, dead unit. The model has no use-after-free.
- The sound call `native_sound::set_volume` in `set_volume` is replaced by the list of calls it would receive.
- The little-endian reader behind `load_pcx_data` (data_loading.h) is not part of this model. Its reads are modelled as bounds-checked, with `ReadPastEnd` for a read past the end.
- The PCX version byte, palette and other header fields the loader skips are not checked.
- `error()` exceptions in the PCX loader become `Err` values.
- ActionsPerMinute.AfterUpdate: the source's separate check for an empty history in `update` cannot fire, because the first branch has just pushed a bucket. It is therefore not modelled as a branch.
- `ui_custom.h` beyond the listed helpers is not modelled: tileset and image loading, the sound channel handling other than `set_volume`, `async_read_file`, and the clickable-bounds lookups. These are file I/O, audio, and lookups into data structures outside this model.
- `current_selection_*` work on the ids `get_unit_id` gives. The id lookup itself is not modelled.
- JsCommands.ToLowerFacts: the keyboard `toLowerCase` is modelled on ASCII letters only.

## Findings

| source | as written | input that shows it | evidently intended | confidence | as-written member | corrected member |
|---|---|---|---|---|---|---|
| game_integrated/ui_custom.h:1159 | `add_action` records `frame / 12` as the current bucket while buckets are compared as `frame / resolution` (resolution 1) | two `add_action(24)` calls on an empty counter: the first records bucket 2, the second compares bucket 24 against it and opens a second bucket, giving history [1, 1] instead of [2] | record `frame / resolution`, as `update` does | not executed | ActionsPerMinute.AsWrittenSplitsAFrame | ActionsPerMinute.SameFrameJoins |
