# EmojiCraft game world in Dafny

This project models the sequential engine of EmojiCraft, a grid game in which the player walks and
falls over a 24 x 10 map and collects emoji items. The bottom two rows are ground walls. Items
carry signed scores, alternate between positive and negative, and are replaced when they expire.
The model covers:

- the world (`GameWorld`): its component list, the creation time of each spawned item, the score
  and the game flags, and the moves, collisions, spawns, expiry sweeps, rendering, reset and
  grid-to-walls restore that update them;
- the component list (`ItemGroup`) and its index iterator;
- the player, and the physics loop (`GamePhysics`) that applies gravity and then sweeps expired
  items on every tick;
- the two item factories, as fixed tables of (emoji, score) pairs;
- the leaf components `Item`, `Wall` and `SingleItem`.

Modules, one per file, follow the Java packages:

- `Common` (common.dfy): `Option` and the `Symbol` type.
- `Model` (model.dfy): `Wall` as an immutable datatype and `Item` as a class.
- `Factory` (factory.dfy): the two tables and the two creation methods.
- `Map` (map.dfy): the `MapComponent` variant, `ItemGroup`, `ItemGroupIterator` and `SingleItem`.
- `GameRules` (game_rules.dfy): value-level definitions of what each world operation must do, and
  the lemmas about them.
- `Game` (game.dfy): the classes `Player`, `GameWorld` and `GamePhysics`. Their methods update
  fields in place and are proved against `GameRules`.

Non-determinism becomes input:

- The clock is a `now` parameter.
- `java.util.Random` is a sequence of `Roll`s. Each roll is a playable cell plus a factory-table
  index. The rejection loop of `spawnNewItem` takes rolls until one lands on an empty cell.
- A thread sleep plus one loop turn is one `Tick` call.

The map keeps the source's behaviour where it looks unintended:

- `createGround` appends 48 walls on every call, with no de-duplication.
- A collision removes every item on the player's cell, not only the first.
- A collision does not drop the creation times of the items it takes. A later expiry sweep
  therefore spawns a replacement for an item that is no longer on the map.
- A direction other than W, A, S or D targets the current cell. The move and the collision check
  still run.
- `resetGame` leaves `gameActive` and `spawnNegativeNext` as they were.
- Restoring a saved grid turns every non-blank cell into a wall, including the player's own cell.

## Model

| member | source | states |
|---|---|---|
| Model.Wall.Symbol | src/main/java/model/Wall.java:65-68 | a wall's symbol is always the brick |
| Model.Wall.Render | src/main/java/model/Wall.java:60-63 | writes the brick, which is `Symbol()`, into grid[y][x] and leaves every other cell as it was |
| Model.Item.constructor | src/main/java/model/Item.java:46-52 | stores position, emoji and score; a new item is visible |
| Model.Item.WithDefaultScore | src/main/java/model/Item.java:55-57 | the three-argument constructor gives score 1 and a visible item |
| Model.Item.Symbol | src/main/java/model/Item.java:59-62 | the symbol is the stored emoji (getSymbol and getEmoji agree) |
| Model.Item.SetVisible | src/main/java/model/Item.java:86-88 | changes only the visibility flag |
| Model.Item.WithPosition | src/main/java/model/Item.java:90-93 | an item at the new (x, y) with the same emoji, score and visibility |
| Model.Item.WithX | src/main/java/model/Item.java:95-97 | an item at the new column with row, emoji, score and visibility kept |
| Model.Item.WithY | src/main/java/model/Item.java:99-101 | an item at the new row with column, emoji, score and visibility kept |
| Model.Item.Render | src/main/java/model/Item.java:108-113 | grid[y][x] becomes the emoji iff the item is visible; no other cell changes |
| Factory.PositiveEntry | src/main/java/factory/ItemFactory.java:20-21 | every index in [0, 5) selects a score in {5, 10, 20, 25, 50}, so strictly positive, paired with the symbol at the same index |
| Factory.NegativeEntry | src/main/java/factory/NegativeItemFactory.java:20-21 | every index in [0, 5) selects a score in {-5, -15, -20, -25, -50}, so strictly negative, paired with the symbol at the same index |
| Factory.CreateRandomItem | src/main/java/factory/ItemFactory.java:28-33 | a new visible item at (x, y) whose emoji and score are row `index` of the positive table |
| Factory.CreateRandomNegativeItem | src/main/java/factory/NegativeItemFactory.java:28-33 | a new visible item at (x, y) whose emoji and score are row `index` of the negative table |
| Map.RemoveFirstAt | src/main/java/map/ItemGroup.java:27-29 | remove deletes exactly the first occurrence of the component and keeps the rest in order |
| Map.RemoveFirstAbsent | src/main/java/map/ItemGroup.java:27-29 | removing an absent component leaves the list unchanged |
| Map.RenderedCellIsLast | src/main/java/map/ItemGroup.java:37-49 | a rendered cell shows the symbol of the last component in the list on that cell; with none there, it keeps its previous value |
| Map.ItemGroup.constructor | src/main/java/map/ItemGroup.java:19 | a new group has no components |
| Map.ItemGroup.Add | src/main/java/map/ItemGroup.java:22-24 | appends: earlier components stay in order and the new one is last |
| Map.ItemGroup.Remove | src/main/java/map/ItemGroup.java:27-29 | the list loses its first element equal to the argument, and nothing else |
| Map.ItemGroup.IsCellEmpty | src/main/java/map/ItemGroup.java:51-55 | a cell is empty iff no component of the group is on it |
| Map.ItemGroup.Render | src/main/java/map/ItemGroup.java:37-49 | every grid cell ends as the last in-bounds component on it draws it, or as it was; out-of-bounds components are skipped |
| Map.ItemGroupIterator.constructor | src/main/java/map/ItemGroupIterator.java:18-22 | the position starts at 0 and nothing has been yielded |
| Map.ItemGroupIterator.HasNext | src/main/java/map/ItemGroupIterator.java:24-27 | true iff some component has not been returned yet |
| Map.ItemGroupIterator.Next | src/main/java/map/ItemGroupIterator.java:24-35 | returns components[position] and advances by one, or reports NoSuchElement without advancing; the yielded prefix grows in list order and is the whole list exactly when hasNext is false |
| Map.SingleItem.constructor | src/main/java/map/SingleItem.java:24-29 | stores position and emoji; visible |
| Map.SingleItem.Symbol | src/main/java/map/SingleItem.java:19-22 | the symbol is the stored emoji |
| Map.SingleItem.SetVisible | src/main/java/map/SingleItem.java:35-37 | changes only the visibility flag |
| Map.SingleItem.Render | src/main/java/map/SingleItem.java:45-50 | grid[y][x] becomes the emoji iff visible; no other cell changes |
| GameRules.PlayableCells | src/main/java/game/GameWorld.java:356-358 | `IsValidPosition`: a cell is valid iff it is in the grid and no ground wall is on it |
| GameRules.Target | src/main/java/game/GameWorld.java:85-90 | W, S, A and D aim at one of the four neighbouring cells; any other direction aims at the current cell |
| GameRules.DirectionSymbol | src/main/java/game/GameWorld.java:108-116 | the standing pose is used exactly for a direction other than W, S, A or D; every pose is non-blank |
| GameRules.MoveDestination | src/main/java/game/GameWorld.java:84-98 | a move goes exactly one cell up, down, left or right, or stays put; a valid start stays valid |
| GameRules.GravityDestination | src/main/java/game/GamePhysics.java:70-72 | gravity keeps the column and moves at most one row down, never below row 7 from a row above it |
| GameRules.GroundLayout | src/main/java/game/GameWorld.java:185-193 | the ground is 48 distinct walls covering exactly rows 8 and 9 of all 24 columns |
| GameRules.GroundLeavesPlayableFree | src/main/java/game/GameWorld.java:185-193 | no ground wall lies on a playable cell |
| GameRules.GroundOnePerCell | src/main/java/game/GameWorld.java:185-193 | the ground puts at most one component on each cell |
| GameRules.CollectPartition | src/main/java/game/GameWorld.java:129-137 | the collision sweep splits the list into the kept components and the items on the cell, as multisets; it keeps every wall; taken items are on the cell and no kept item is; nothing is taken iff the list is unchanged |
| GameRules.OnePerCellWithoutItemsAt | src/main/java/game/GameWorld.java:129-137 | removing the items on one cell keeps at most one component per cell |
| GameRules.WithoutMembers | src/main/java/game/GameWorld.java:225-227 | after the expired items are removed, a component remains iff it was present and is not a removed item |
| GameRules.RemoveFirstIsWithout | src/main/java/game/GameWorld.java:226 | for an item listed at most once, remove is the same as filtering that item out |
| GameRules.OnePerCellWithout | src/main/java/game/GameWorld.java:225-227 | removing items keeps at most one component per cell |
| GameRules.OnePerCellAppend | src/main/java/game/GameWorld.java:250-258 | adding a component on an empty cell keeps at most one component per cell |
| GameRules.FirstEmpty | src/main/java/game/GameWorld.java:247-250 | the rejection loop stops at the first roll on an empty cell; every earlier roll hit an occupied cell |
| GameRules.SpawnOnEmptyCell | src/main/java/game/GameWorld.java:241-261 | a spawn happens iff the game is active and some roll hits an empty cell; the item is then on a previously empty playable cell and appended; otherwise nothing changes |
| GameRules.SpawnPolarity | src/main/java/game/GameWorld.java:252-256 | the spawned item is negative iff the flag was set, its score comes from that factory's table, and the flag flips |
| GameRules.SpawnKeepsOnePerCell | src/main/java/game/GameWorld.java:247-258 | a spawn keeps at most one component per cell |
| GameRules.SpawnOnGround | src/main/java/game/GameWorld.java:36-39 | on a fresh ground the first roll always spawns: the list is the ground plus that item, which alone has a creation time |
| GameRules.SpawnSummary | src/main/java/game/GameWorld.java:241-261 | an active spawn appends the listed item, records its time, flips the flag iff something spawned, and runs out of rolls when nothing did |
| GameRules.SweepExpire | src/main/java/game/GameWorld.java:225-232 | removing an entry older than the lifetime and appending its replacement keeps the sweep invariant |
| GameRules.AlternatingAppend | src/main/java/game/GameWorld.java:252-256 | one more spawn continues the +, -, +, ... pattern from the starting flag |
| GameRules.DistinctAppend | src/main/java/game/GameWorld.java:252-259 | a replacement is new, so the spawned items stay distinct and none of them had a creation time before the sweep |
| GameRules.SweepDone | src/main/java/game/GameWorld.java:212-235 | after a full sweep, the removed entries are exactly those strictly older than the lifetime; the list and the times are the old ones minus those plus the replacements; there is at most one replacement per removal, and exactly one each unless the rolls ran out; replacements alternate in sign |
| GameRules.CollisionDetects | src/main/java/game/GameWorld.java:129-141 | a collision collects iff an item is on the cell; no creation time is dropped; with none there, nothing changes |
| GameRules.CollisionClearsCell | src/main/java/game/GameWorld.java:129-141 | walls survive a collision, and the only item left on the cell is the replacement, if it landed there |
| GameRules.CollisionKeepsOnePerCell | src/main/java/game/GameWorld.java:129-141 | a collision and its spawn keep at most one component per cell |
| GameRules.WorldCellShows | src/main/java/game/GameWorld.java:150-167 | a world-state cell shows the player's symbol on the player's cell when in bounds; otherwise the last component there, or blank when there is none |
| GameRules.RestoreGridExact | src/main/java/game/GameWorld.java:315-326 | restoring a rectangular grid gives exactly one wall per non-null, non-blank cell, and no other wall |
| GameRules.SaveThenRestore | src/main/java/game/GameWorld.java:150-167 | restoring a saved world grid yields walls on exactly the cells that were drawn non-blank, including the player's own cell |
| Game.Player.constructor | src/main/java/game/Player.java:14-17 | stores the start position with the default emoji |
| Game.Player.Move | src/main/java/game/Player.java:41-45 | adds (dx, dy) to the position and sets the emoji |
| Game.Player.SetPosition | src/main/java/game/Player.java:47-51 | sets the position exactly and keeps the emoji |
| Game.Player.SetEmoji | src/main/java/game/Player.java:32-34 | sets the emoji and keeps the position |
| Game.GameWorld.constructor | src/main/java/game/GameWorld.java:36-39 | a new world is active with zero score and holds the ground; with a roll, also one positive item on that roll's cell, the only one with a creation time, and the flag is set |
| Game.GameWorld.FromGroup | src/main/java/game/GameWorld.java:67-69 | a world over a copy of the given components, with no creation times and default fields |
| Game.GameWorld.IsCellEmpty | src/main/java/game/GameWorld.java:199-202 | a cell is empty iff no component of the world's list is on it |
| Game.GameWorld.CreateGround | src/main/java/game/GameWorld.java:185-193 | appends the 48 ground walls after the existing components |
| Game.GameWorld.FindEmptyDraw | src/main/java/game/GameWorld.java:247-250 | finds the first roll on an empty cell, or the end of the rolls |
| Game.GameWorld.PlaceItem | src/main/java/game/GameWorld.java:252-259 | creates the item the flag selects at the roll's cell, appends it, records its time and flips the flag |
| Game.GameWorld.SpawnNewItem | src/main/java/game/GameWorld.java:241-261 | satisfies `SpawnOutcome`, the spawn specification whose consequences are the Spawn* lemmas |
| Game.GameWorld.CollectCell | src/main/java/game/GameWorld.java:129-137 | drops every item on the cell, adds their scores, makes the last one the recent gain, and returns whether any was taken |
| Game.GameWorld.CheckItemCollision | src/main/java/game/GameWorld.java:122-144 | satisfies `CollisionOutcome`: collect the cell, then spawn once iff something was collected |
| Game.GameWorld.MovePlayer | src/main/java/game/GameWorld.java:75-105 | the player ends on `MoveDestination`; a valid target gets the direction emoji and a collision check; an invalid one changes nothing; itemCollected is the result; the manual-movement gate is clear on return |
| Game.GameWorld.StepPlayer | src/main/java/game/GameWorld.java:81-98 | the move and collision part of movePlayer, with the same outcome |
| Game.GameWorld.DropItem | src/main/java/game/GameWorld.java:226-227 | the expired item leaves both the list and the creation times |
| Game.GameWorld.ExpireItem | src/main/java/game/GameWorld.java:225-233 | removes one entry, spawns at most one new item that had no creation time before, and keeps one component per cell |
| Game.GameWorld.VisitTimer | src/main/java/game/GameWorld.java:221-233 | one iteration of the sweep keeps the sweep invariant |
| Game.GameWorld.SweepTimers | src/main/java/game/GameWorld.java:218-234 | visiting every entry once, in any order, reaches the sweep invariant with nothing left to visit |
| Game.GameWorld.UpdateItems | src/main/java/game/GameWorld.java:212-235 | inactive: nothing changes. Active: exactly the items strictly older than the lifetime leave the list and the times; untracked components stay; each removal gets at most one replacement, exactly one unless the rolls run out; replacements alternate in sign; one component per cell is kept |
| Game.GameWorld.GetWorldState | src/main/java/game/GameWorld.java:150-167 | a 10 x 24 grid whose every cell is `WorldCell`: blank, the last component there, or the player drawn last |
| Game.GameWorld.Render | src/main/java/game/GameWorld.java:267-279 | every in-bounds cell ends as `RenderedCell` of the component list over its old value |
| Game.GameWorld.SaveGame | src/main/java/game/GameWorld.java:285-298 | the snapshot holds the player's position, the score, the time left and the world-state grid |
| Game.GameWorld.RestoreSnapshot | src/main/java/game/GameWorld.java:304-338 | without a snapshot nothing changes; with one, the player moves to the saved position with the loaded emoji, score and time are copied, and the list is exactly the restored walls |
| Game.GameWorld.RestoreWalls | src/main/java/game/GameWorld.java:315-326 | the cleared list becomes the walls of `RestoreGrid`, one per occupied cell in row-major order |
| Game.GameWorld.RestoreRow | src/main/java/game/GameWorld.java:316-325 | one row of the restore loop appends that row's walls, or stops the restore at a short row |
| Game.GameWorld.ResetGame | src/main/java/game/GameWorld.java:364-374 | score, recent gain and itemCollected are zero or false, the time is 60, gameActive is kept, and the list is the ground plus the spawn outcome on it, one component per cell |
| Game.SweepCell | src/main/java/game/GameWorld.java:129-137 | the removeIf loop keeps the non-matching components in order and sums the taken scores, remembering the last |
| Game.ValidateOrInitializePlayer | src/main/java/game/GameWorld.java:350-355 | a valid position is kept, an invalid one becomes (5, 3); the result is always valid and the emoji is kept |
| Game.GamePhysics.constructor | src/main/java/game/GamePhysics.java:27-39 | running, gate clear, last ground time 0 |
| Game.GamePhysics.Stop | src/main/java/game/GamePhysics.java:104-106 | clears running |
| Game.GamePhysics.StartManualMovement | src/main/java/game/GamePhysics.java:108-110 | sets the gate |
| Game.GamePhysics.EndManualMovement | src/main/java/game/GamePhysics.java:112-114 | clears the gate |
| Game.GamePhysics.ApplyGravity | src/main/java/game/GamePhysics.java:59-84 | gated or unable to fall: nothing changes. Otherwise the player moves exactly one row down in the same column, takes the standing emoji, and a collision check follows; the active flag, the time left and itemCollected are never touched |
| Game.GamePhysics.Tick | src/main/java/game/GamePhysics.java:49-51 | gravity, then the expiry sweep; the player ends on the gravity destination, one component per cell is kept, and the active flag, the time left and itemCollected are unchanged |
| Game.GamePhysics.Run | src/main/java/game/GamePhysics.java:45-57 | ticks while running; a stop ends the loop after the tick in which it came, and the loop runs all inputs otherwise; after `count` ticks the player is in the same column and, unless gated, `count` gravity steps lower, in closed form one row per tick down to row 7 and never past it; a valid position stays valid; one component per cell is kept |
| GameRules.FallStepsClosedForm | src/main/java/game/GamePhysics.java:71-72 | n gravity steps from row y end on y + n, capped at the last playable row 7; a player already on or below row 7 stays put |
| Game.GamePhysics.CheckGroundState | src/main/java/game/GamePhysics.java:86-102 | on the ground and past 1000 ms: default emoji and the time is recorded; on the ground within 1000 ms: nothing changes; off the ground: the time is recorded; the position never changes |

## Left out

- Threads, `Thread.sleep`, interrupts, `synchronized`, `volatile` and the `ConcurrentHashMap` guarantees are not modelled. Each physics turn is a sequential `Tick` call, so races between the HTTP handlers and the physics thread are not represented.
- `java.util.Random` becomes a sequence of rolls. On a map with no empty playable cell the source's rejection loop never ends; in the model the rolls run out and nothing spawns.
- `System.currentTimeMillis` becomes the `now` parameter. The countdown thread in util/GameUtils.java is not part of this model.
- GameStateManager's file, JSON and serialisation I/O is not part of this model. `SaveGame` returns the snapshot instead of writing it. `RestoreSnapshot` takes the loaded snapshot, or `None` for a failed load. A row shorter than row 0 stops the restore at that point, as the caught index exception does.
- GameSettings is not part of this model. The item lifetime is the constant 4000 ms, its default; the physics interval matters only to the sleep, which is left out.
- ServerManager, Main, the browser client, LoggerUtil and all console output are not part of this model. The game's second `createGround` call comes from the server and is not modelled; `CreateGround` appends on every call all the same.
- Java `int` overflow of the score and positions is not modelled; integers are unbounded.
- `itemList` with `getItems` and `setItems`, `itemSpawnCounter`, the plain getters and setters of GameWorld, `getMoveResponse` and `registerShutdownHook` are not modelled. They hold no logic beyond field access or wiring.
- Model.Item.WithPosition: `setPosition` is modelled as returning a moved copy, not as an update in place. Item positions are fixed, so the many functions over the component list need no read frames on every item. Aliasing of a moved item that is still on the map or in the creation-time map is therefore not captured.
- Model.Item.WithX: same as `WithPosition`, for `setX`.
- Model.Item.WithY: same as `WithPosition`, for `setY`.
- Game.GameWorld.UpdateItems: states that each replacement was not among the creation-time entries before the sweep, not that it is a newly allocated object. The order in which the map's entries are visited is left open, as `ConcurrentHashMap` leaves it.
- Game.GamePhysics.Tick: states the player's position and the one-per-cell invariant; the collision and sweep outcomes are stated by `ApplyGravity` and `UpdateItems`, which it calls in that order.
- Map.MapComponent: a wall is a value, so two walls on the same cell are equal, and `ItemGroup.Remove` of a wall removes the first wall on that cell. Java's `Wall` has identity equality, so `remove` would take only that object. No modelled operation removes a wall.
- Map.ItemGroupIterator: it holds a snapshot of the list taken at construction. The Java iterator reads the live list, so additions made while iterating are not seen here. No modelled operation iterates while changing the list.
- Map.ItemGroup.Render: the grid is a rectangular `array2`. A Java grid with no rows makes `grid[0].length` throw, and a jagged Java grid is possible; neither can be represented. The world always renders into its own 10 x 24 grid.
- Map.SingleItem: `MapComponent` has no `SingleItem` variant, so a `SingleItem` cannot be added to an `ItemGroup`. No operation of the game adds one.
- The route's own rejection of directions outside `[WASD]` is not relied on: `MovePlayer` accepts any string, and an unknown direction targets the current cell as in the source.
