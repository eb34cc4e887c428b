/**
 * Package `game`: the player, the world that owns the component list and the item creation
 * times, and the physics loop. Threads become explicit calls, the clock a `now` parameter, and
 * java.util.Random a stream of rolls that each spawn consumes.
 */
module Game {
  import opened Common
  import opened Model
  import opened Map
  import opened GameRules

  /** Milliseconds the player must rest on the ground before the resting pose is shown again. */
  const GroundThreshold := 1000

  /** The player: a position and the symbol it is drawn with. */
  class Player {
    var x: int
    var y: int
    var emoji: Symbol

    constructor (startX: int, startY: int)
      ensures x == startX && y == startY && emoji == DefaultPlayerSymbol
    {
      x := startX;
      y := startY;
      emoji := DefaultPlayerSymbol;
    }

    /** Moves by (dx, dy) and takes the new pose. */
    method Move(dx: int, dy: int, newEmoji: Symbol)
      modifies this
      ensures x == old(x) + dx && y == old(y) + dy && emoji == newEmoji
    {
      x := x + dx;
      y := y + dy;
      emoji := newEmoji;
    }

    method SetPosition(x: int, y: int)
      modifies this`x, this`y
      ensures this.x == x && this.y == y && emoji == old(emoji)
    {
      this.x := x;
      this.y := y;
    }

    method SetEmoji(e: Symbol)
      modifies this`emoji
      ensures emoji == e && x == old(x) && y == old(y)
    {
      emoji := e;
    }
  }

  /**
   * The world: the component list (ground walls and items), the creation time of every spawned
   * item, the score, and the flags of the game in progress.
   */
  class GameWorld {
    const items: ItemGroup
    var timers: map<Item, int>
    var score: int
    var recentScoreGained: int
    var itemCollected: bool
    var timeRemaining: int
    var gameActive: bool
    var spawnNegativeNext: bool

    /** Every item with a creation time is in the list at most once. */
    ghost predicate Valid()
      reads this`timers, items`components
    {
      TrackedOnce(items.components, timers)
    }

    /** The part of the state a spawn works on. */
    ghost function Tracked(): Tracking
      reads this`timers, this`spawnNegativeNext, items`components
    {
      Tracking(items.components, timers, spawnNegativeNext)
    }

    /**
     * A new world: the two ground rows, then one positive item on the first roll (every playable
     * cell is empty at that point); with no rolls, no item.
     */
    constructor (rolls: seq<Roll>, now: int)
      ensures Valid() && fresh(items)
      ensures score == 0 && recentScoreGained == 0 && !itemCollected && timeRemaining == 0 && gameActive
      ensures OnePerCell(items.components)
      ensures rolls == [] ==> items.components == Ground() && timers == map[] && !spawnNegativeNext
      ensures rolls != [] ==>
                |items.components| == |Ground()| + 1 && items.components[..|Ground()|] == Ground() &&
                var c := items.components[|Ground()|];
                c.ItemPart? && c.item.x == rolls[0].x && c.item.y == rolls[0].y && c.item.score > 0 &&
                timers == map[c.item := now] && spawnNegativeNext
    {
      items := new ItemGroup();
      timers := map[];
      score := 0;
      recentScoreGained := 0;
      itemCollected := false;
      timeRemaining := 0;
      gameActive := true;
      spawnNegativeNext := false;
      new;
      CreateGround();
      assert items.components == Ground();
      var rest, spawned := SpawnNewItem(rolls, now);
      SpawnOnGround(true, false, rolls, now, Tracked(), rest, spawned);
      if rolls != [] {
        assert items.components[..|Ground()|] == Ground();
      }
    }

    /** A world over a copy of another group's components, with no ground, no item and no timers added. */
    constructor FromGroup(group: ItemGroup)
      ensures Valid() && fresh(items)
      ensures items.components == group.components && timers == map[]
      ensures score == 0 && recentScoreGained == 0 && !itemCollected && timeRemaining == 0
      ensures gameActive && !spawnNegativeNext
    {
      var g := new ItemGroup();
      g.components := g.components + group.components;
      items := g;
      timers := map[];
      score := 0;
      recentScoreGained := 0;
      itemCollected := false;
      timeRemaining := 0;
      gameActive := true;
      spawnNegativeNext := false;
    }

    /** True iff no component is on cell (x, y). */
    predicate IsCellEmpty(x: int, y: int)
      reads this, items
      ensures IsCellEmpty(x, y) <==> forall c :: c in items.components ==> !c.At(x, y)
    {
      items.IsCellEmpty(x, y)
    }

    /** Appends the 48 ground walls, row HEIGHT-2 then row HEIGHT-1, each from left to right. */
    method CreateGround()
      requires Valid()
      modifies items
      ensures Valid()
      ensures items.components == old(items.components) + Ground()
    {
      var y := Height - 2;
      while y < Height
        invariant Height - 2 <= y <= Height
        invariant items.components == old(items.components) + Ground()[..(y - (Height - 2)) * Width]
        invariant Valid()
      {
        var x := 0;
        while x < Width
          invariant 0 <= x <= Width
          invariant items.components == old(items.components) + Ground()[..(y - (Height - 2)) * Width + x]
          invariant Valid()
        {
          var k := (y - (Height - 2)) * Width + x;
          assert Ground()[k] == WallPart(Wall(x, y));
          assert Ground()[..k + 1] == Ground()[..k] + [WallPart(Wall(x, y))];
          TrackedOnceAppend(items.components, timers, WallPart(Wall(x, y)), timers);
          items.Add(WallPart(Wall(x, y)));
          x := x + 1;
        }
        y := y + 1;
      }
      assert Ground()[..2 * Width] == Ground();
    }

    /**
     * spawnNewItem's rejection loop: the index of the first draw whose cell is empty, or the
     * number of draws when every one hits an occupied cell.
     */
    method FindEmptyDraw(rolls: seq<Roll>) returns (i: nat)
      ensures i <= |rolls|
      ensures i < |rolls| ==> IsCellEmpty(rolls[i].x, rolls[i].y)
      ensures forall j :: 0 <= j < i ==> !IsCellEmpty(rolls[j].x, rolls[j].y)
    {
      i := 0;
      while i < |rolls| && !items.IsCellEmpty(rolls[i].x, rolls[i].y)
        invariant 0 <= i <= |rolls|
        invariant forall j :: 0 <= j < i ==> !IsCellEmpty(rolls[j].x, rolls[j].y)
      {
        i := i + 1;
      }
    }

    /**
     * The placing half of spawnNewItem: a fresh item from the factory the flag selects, at the
     * draw's cell, appended to the list with its creation time; then the flag flips.
     */
    method PlaceItem(r: Roll, now: int) returns (it: Item)
      requires Valid()
      modifies this`timers, this`spawnNegativeNext, items
      ensures Valid() && fresh(it) && it.visible
      ensures it.x == r.x && it.y == r.y
      ensures Factory.Entry(it.emoji, it.score) ==
                if old(spawnNegativeNext) then Factory.NegativeEntry(r.index) else Factory.PositiveEntry(r.index)
      ensures Tracked() == Tracking(old(items.components) + [ItemPart(it)], old(timers)[it := now], !old(spawnNegativeNext))
    {
      if spawnNegativeNext {
        it := Factory.CreateRandomNegativeItem(r.x, r.y, r.index);
      } else {
        it := Factory.CreateRandomItem(r.x, r.y, r.index);
      }
      spawnNegativeNext := !spawnNegativeNext;
      TrackedOnceAppend(items.components, timers, ItemPart(it), timers[it := now]);
      items.Add(ItemPart(it));
      timers := timers[it := now];
    }

    /**
     * spawnNewItem: when the game is active, draws cells until one is empty and puts a new item
     * there, negative or positive as the flag says, then flips the flag and records the creation
     * time. The draws are taken from `rolls`; `rest` is what is left of them.
     */
    method SpawnNewItem(rolls: seq<Roll>, now: int) returns (rest: seq<Roll>, spawned: Option<Item>)
      requires Valid()
      modifies this`timers, this`spawnNegativeNext, items
      ensures Valid()
      ensures SpawnOutcome(gameActive, old(Tracked()), rolls, now, Tracked(), rest, spawned)
      ensures spawned.Some? ==> fresh(spawned.value) && spawned.value.visible
    {
      if !gameActive {
        return rolls, None;
      }
      var i := FindEmptyDraw(rolls);
      if i == |rolls| {
        return [], None;
      }
      var it := PlaceItem(rolls[i], now);
      rest, spawned := rolls[i + 1..], Some(it);
    }

    /**
     * The removeIf half of checkItemCollision: every item on cell (x, y) leaves the list, its
     * score is added, and the last one's score becomes recentScoreGained.
     */
    method CollectCell(x: int, y: int) returns (collected: bool)
      requires Valid()
      modifies this`score, this`recentScoreGained, items
      ensures Valid()
      ensures items.components == WithoutItemsAt(old(items.components), x, y)
      ensures collected <==> ItemsAt(old(items.components), x, y) != []
      ensures score == old(score) + ScoreSum(ItemsAt(old(items.components), x, y))
      ensures recentScoreGained ==
                if ItemsAt(old(items.components), x, y) == [] then old(recentScoreGained)
                else Last(ItemsAt(old(items.components), x, y)).score
    {
      var cs := items.components;
      var kept, gained, last;
      kept, collected, gained, last := SweepCell(cs, x, y, score, recentScoreGained);
      TrackedOnceCollect(cs, timers, x, y);
      score, recentScoreGained := gained, last;
      items.components := kept;
    }

    /**
     * checkItemCollision: removes every item on the player's cell, adds each one's score (the
     * last one's becomes recentScoreGained), and spawns one replacement if anything was taken.
     * The taken items keep their creation times.
     */
    method CheckItemCollision(player: Player, rolls: seq<Roll>, now: int)
      returns (collected: bool, rest: seq<Roll>, spawned: Option<Item>)
      requires Valid()
      modifies this`score, this`recentScoreGained, this`timers, this`spawnNegativeNext, items
      ensures Valid()
      ensures CollisionOutcome(gameActive, old(Tracked()), old(score), old(recentScoreGained), player.x, player.y,
                               rolls, now, Tracked(), score, recentScoreGained, collected, rest, spawned)
      ensures spawned.Some? ==> fresh(spawned.value)
    {
      collected := CollectCell(player.x, player.y);
      if collected {
        rest, spawned := SpawnNewItem(rolls, now);
      } else {
        rest, spawned := rolls, None;
      }
    }

    /**
     * movePlayer: moves one cell for W, S, A, D (not at all for anything else) when the target is
     * a playable cell, taking the direction's pose and collecting what lies there; the supplied
     * physics is paused for the duration. The result is also stored in itemCollected.
     */
    method MovePlayer(player: Player, dir: string, physics: GamePhysics, rolls: seq<Roll>, now: int)
      returns (collected: bool, rest: seq<Roll>, spawned: Option<Item>)
      requires Valid()
      modifies this`itemCollected, this`score, this`recentScoreGained, this`timers, this`spawnNegativeNext, items
      modifies player, physics`manualMovement
      ensures Valid()
      ensures (player.x, player.y) == MoveDestination(old(player.x), old(player.y), dir)
      ensures !physics.manualMovement
      ensures itemCollected == collected
      ensures var t := Target(old(player.x), old(player.y), dir);
              IsValidPosition(t.0, t.1) ==>
                player.emoji == DirectionSymbol(dir) &&
                CollisionOutcome(gameActive, old(Tracked()), old(score), old(recentScoreGained), t.0, t.1,
                                 rolls, now, Tracked(), score, recentScoreGained, collected, rest, spawned)
      ensures var t := Target(old(player.x), old(player.y), dir);
              !IsValidPosition(t.0, t.1) ==>
                !collected && player.emoji == old(player.emoji) && Tracked() == old(Tracked()) &&
                score == old(score) && recentScoreGained == old(recentScoreGained) && rest == rolls && spawned == None
      ensures spawned.Some? ==> fresh(spawned.value)
    {
      itemCollected := false;
      physics.StartManualMovement();
      collected, rest, spawned := StepPlayer(player, dir, rolls, now);
      itemCollected := collected;
      physics.EndManualMovement();
    }

    /** The body of movePlayer between the two gate calls: the bounded step, then the collision check. */
    method StepPlayer(player: Player, dir: string, rolls: seq<Roll>, now: int)
      returns (collected: bool, rest: seq<Roll>, spawned: Option<Item>)
      requires Valid()
      modifies this`score, this`recentScoreGained, this`timers, this`spawnNegativeNext, items, player
      ensures Valid()
      ensures (player.x, player.y) == MoveDestination(old(player.x), old(player.y), dir)
      ensures var t := Target(old(player.x), old(player.y), dir);
              IsValidPosition(t.0, t.1) ==>
                player.emoji == DirectionSymbol(dir) &&
                CollisionOutcome(gameActive, old(Tracked()), old(score), old(recentScoreGained), t.0, t.1,
                                 rolls, now, Tracked(), score, recentScoreGained, collected, rest, spawned)
      ensures var t := Target(old(player.x), old(player.y), dir);
              !IsValidPosition(t.0, t.1) ==>
                !collected && player.emoji == old(player.emoji) && Tracked() == old(Tracked()) &&
                score == old(score) && recentScoreGained == old(recentScoreGained) && rest == rolls && spawned == None
      ensures spawned.Some? ==> fresh(spawned.value)
    {
      var t := Target(player.x, player.y, dir);
      if IsValidPosition(t.0, t.1) {
        ghost var before, score0, recent0 := Tracked(), score, recentScoreGained;
        ghost var destination := MoveDestination(player.x, player.y, dir);
        player.Move(t.0 - player.x, t.1 - player.y, DirectionSymbol(dir));
        assert (player.x, player.y) == destination == t;
        assert Tracked() == before && score == score0 && recentScoreGained == recent0 && Valid();
        collected, rest, spawned := CheckItemCollision(player, rolls, now);
        assert (player.x, player.y) == destination;
      } else {
        collected, rest, spawned := false, rolls, None;
      }
    }

    /** Drops an item from the list (its first occurrence) and from the timers. */
    method DropItem(it: Item)
      requires Valid() && it in timers
      modifies this`timers, items
      ensures Valid()
      ensures items.components == Without(old(items.components), {it}) && timers == old(timers) - {it}
    {
      TrackedOnceAt(items.components, timers, it);
      RemoveFirstIsWithout(items.components, it);
      WithoutShrinks(items.components, {it});
      TrackedOnceShrink(items.components, timers, Without(items.components, {it}), timers - {it});
      items.Remove(ItemPart(it));
      timers := timers - {it};
    }

    /**
     * One step of updateItems' sweep in an active game: drop an expired item from the list and the
     * timers, then spawn a replacement on a playable cell, negative iff the flag was set. Only
     * when the draws run out is no replacement placed.
     */
    method ExpireItem(it: Item, rolls: seq<Roll>, now: int, ghost seen: set<Item>)
      returns (rest: seq<Roll>, spawned: Option<Item>)
      requires Valid() && it in timers && gameActive
      modifies this`timers, this`spawnNegativeNext, items
      ensures Valid()
      ensures items.components == Without(old(items.components), {it}) + Parts(Listed(spawned))
      ensures timers == (old(timers) - {it}) + SpawnTimes(Listed(spawned), now)
      ensures spawnNegativeNext == (old(spawnNegativeNext) != spawned.Some?)
      ensures spawned.Some? ==>
                fresh(spawned.value) && spawned.value !in seen && spawned.value !in old(timers) &&
                IsValidPosition(spawned.value.x, spawned.value.y) &&
                (spawned.value.score < 0 <==> old(spawnNegativeNext))
      ensures spawned.Some? ==> rolls != []
      ensures spawned.None? ==> rest == []
      ensures OnePerCell(old(items.components)) ==> OnePerCell(items.components)
    {
      if OnePerCell(items.components) {
        OnePerCellWithout(items.components, {it});
      }
      DropItem(it);
      ghost var before := Tracked();
      rest, spawned := SpawnNewItem(rolls, now);
      SpawnSummary(before, rolls, now, Tracked(), rest, spawned);
    }

    /**
     * One turn of updateItems' iterator over the timers: an entry older than the lifetime is
     * expired and replaced, any other is left alone. The ghost parameters are where the sweep
     * stands, which the turn advances by the entry `it`: the new set of removed items and the
     * replacements so far are returned.
     */
    method VisitTimer(it: Item, now: int, rolls: seq<Roll>, ghost timers0: map<Item, int>,
                      ghost cs0: seq<MapComponent>, ghost neg0: bool, ghost todo: set<Item>,
                      ghost removed: set<Item>, spawned: seq<Item>)
      returns (rest: seq<Roll>, spawned': seq<Item>, ghost removed': set<Item>)
      requires Valid() && gameActive
      requires Sweeping(timers0, cs0, neg0, now, todo, removed, items.components, timers, spawnNegativeNext, rolls, spawned)
      requires it in todo
      modifies this`timers, this`spawnNegativeNext, items
      ensures Valid()
      ensures Sweeping(timers0, cs0, neg0, now, todo - {it}, removed',
                       items.components, timers, spawnNegativeNext, rest, spawned')
      ensures OnePerCell(old(items.components)) ==> OnePerCell(items.components)
    {
      SweepVisit(timers0, cs0, neg0, now, todo, removed, items.components, timers, spawnNegativeNext, rolls, spawned, it);
      if now - timers[it] > ItemLifetime {
        ghost var cs, tm, neg := items.components, timers, spawnNegativeNext;
        var added;
        rest, added := ExpireItem(it, rolls, now, timers0.Keys);
        SweepExpire(timers0, cs0, neg0, now, todo, removed, cs, tm, neg, rolls, spawned, it,
                    items.components, timers, spawnNegativeNext, rest, added);
        spawned', removed' := spawned + Listed(added), removed + {it};
      } else {
        rest, spawned', removed' := rolls, spawned, removed;
        SweepKeep(timers0, cs0, neg0, now, todo, removed, items.components, timers, spawnNegativeNext, rolls, spawned, it);
      }
    }

    /**
     * updateItems: when the game is active, removes from the list and from the timers exactly the
     * items older than the lifetime at `now` (an item exactly at the lifetime stays), and spawns a
     * replacement for each. The timers are visited in an unspecified order.
     */
    method UpdateItems(now: int, rolls: seq<Roll>) returns (rest: seq<Roll>, spawned: seq<Item>)
      requires Valid()
      modifies this`timers, this`spawnNegativeNext, items
      ensures Valid()
      ensures !gameActive ==> Tracked() == old(Tracked()) && rest == rolls && spawned == []
      ensures gameActive ==>
                items.components == Without(old(items.components), Expired(old(timers), now)) + Parts(spawned) &&
                timers == Surviving(old(timers), now) + SpawnTimes(spawned, now)
      ensures |spawned| <= |Expired(old(timers), now)|
      ensures gameActive && rest != [] ==> |spawned| == |Expired(old(timers), now)|
      ensures forall i :: 0 <= i < |spawned| ==> spawned[i] !in old(timers) && IsValidPosition(spawned[i].x, spawned[i].y)
      ensures forall i, j :: 0 <= i < j < |spawned| ==> spawned[i] != spawned[j]
      ensures forall i :: 0 <= i < |spawned| ==> (spawned[i].score < 0 <==> (old(spawnNegativeNext) != (i % 2 == 1)))
      ensures spawnNegativeNext == (old(spawnNegativeNext) != (|spawned| % 2 == 1))
      ensures OnePerCell(old(items.components)) ==> OnePerCell(items.components)
    {
      rest, spawned := rolls, [];
      if !gameActive {
        return;
      }
      ghost var cs0, timers0, neg0 := items.components, timers, spawnNegativeNext;
      ghost var removed;
      rest, spawned, removed := SweepTimers(now, rolls);
      SweepDone(timers0, cs0, neg0, now, removed, items.components, timers, spawnNegativeNext, rest, spawned);
    }

    /** The loop of updateItems: one VisitTimer turn per entry of the timers, in an unspecified order. */
    method SweepTimers(now: int, rolls: seq<Roll>) returns (rest: seq<Roll>, spawned: seq<Item>, ghost removed: set<Item>)
      requires Valid() && gameActive
      modifies this`timers, this`spawnNegativeNext, items
      ensures Valid()
      ensures Sweeping(old(timers), old(items.components), old(spawnNegativeNext), now, {}, removed,
                       items.components, timers, spawnNegativeNext, rest, spawned)
      ensures OnePerCell(old(items.components)) ==> OnePerCell(items.components)
    {
      ghost var cs0, timers0, neg0 := items.components, timers, spawnNegativeNext;
      ghost var onePerCell := OnePerCell(cs0);
      rest, spawned, removed := rolls, [], {};
      var todo := timers.Keys;
      SweepStart(timers0, cs0, neg0, now, rest);
      while todo != {}
        invariant Sweeping(timers0, cs0, neg0, now, todo, removed, items.components, timers, spawnNegativeNext, rest, spawned)
        invariant Valid()
        invariant onePerCell ==> OnePerCell(items.components)
        decreases todo
      {
        var it :| it in todo;
        rest, spawned, removed := VisitTimer(it, now, rest, timers0, cs0, neg0, todo, removed, spawned);
        todo := todo - {it};
      }
    }

    /**
     * getWorldState: a fresh 10 x 24 grid with a blank in every cell, the components drawn over it
     * in list order, and the player's symbol drawn last when the player is inside the grid.
     */
    method GetWorldState(player: Player) returns (grid: array2<Symbol>)
      ensures fresh(grid) && grid.Length0 == Height && grid.Length1 == Width
      ensures forall r, c :: 0 <= r < Height && 0 <= c < Width ==>
                grid[r, c] == WorldCell(items.components, player.x, player.y, player.emoji, c, r)
    {
      grid := new Symbol[Height, Width];
      var y := 0;
      while y < Height
        invariant 0 <= y <= Height
        invariant forall r, c :: 0 <= r < y && 0 <= c < Width ==> grid[r, c] == Blank
      {
        var x := 0;
        while x < Width
          invariant 0 <= x <= Width
          invariant forall r, c :: 0 <= r < y && 0 <= c < Width ==> grid[r, c] == Blank
          invariant forall c :: 0 <= c < x ==> grid[y, c] == Blank
        {
          grid[y, x] := Blank;
          x := x + 1;
        }
        y := y + 1;
      }
      items.Render(grid);
      label rendered:
      if 0 <= player.y < Height && 0 <= player.x < Width {
        grid[player.y, player.x] := player.emoji;
      }
      forall r, c | 0 <= r < Height && 0 <= c < Width
        ensures grid[r, c] == WorldCell(items.components, player.x, player.y, player.emoji, c, r)
      {
        if !(InGrid(player.x, player.y) && c == player.x && r == player.y) {
          assert grid[r, c] == old@rendered(grid[r, c]);
        }
      }
    }

    /** render: draws the components into the caller's grid, as ItemGroup.render does. */
    method Render(grid: array2<Symbol>)
      modifies grid
      ensures forall r, c :: 0 <= r < grid.Length0 && 0 <= c < grid.Length1 ==>
                grid[r, c] == RenderedCell(items.components, c, r, old(grid[r, c]))
    {
      items.Render(grid);
    }

    /**
     * The snapshot saveGame hands to storage: the player's position, the score, the time left
     * and the rendered grid (the player's symbol included).
     */
    method SaveGame(player: Player) returns (state: GameState)
      ensures state.playerX == player.x && state.playerY == player.y
      ensures state.score == score && state.timeRemaining == timeRemaining
      ensures state.grid.Some? && IsSavedGrid(state.grid.value, items.components, player.x, player.y, player.emoji)
    {
      var grid := GetWorldState(player);
      var rows := seq(Height, r requires 0 <= r < Height reads grid =>
                        seq(Width, c requires 0 <= c < Width reads grid => Some(grid[r, c])));
      state := GameState(player.x, player.y, score, Some(rows), timeRemaining);
    }

    /**
     * The restoring half of loadGame: with no snapshot nothing changes; otherwise the player
     * moves to the saved cell with the loaded pose, score and time left are copied, and the list
     * is replaced by one wall per non-null, non-blank saved cell (creation times are kept).
     */
    method RestoreSnapshot(player: Player, loaded: Option<GameState>)
      requires Valid()
      modifies this`score, this`timeRemaining, items, player
      ensures Valid()
      ensures loaded.None? ==>
                Tracked() == old(Tracked()) && score == old(score) && timeRemaining == old(timeRemaining) &&
                player.x == old(player.x) && player.y == old(player.y) && player.emoji == old(player.emoji)
      ensures loaded.Some? ==>
                player.x == loaded.value.playerX && player.y == loaded.value.playerY &&
                player.emoji == LoadedPlayerSymbol &&
                score == loaded.value.score && timeRemaining == loaded.value.timeRemaining &&
                items.components == (if loaded.value.grid.Some? then WallParts(RestoreGrid(loaded.value.grid.value)) else [])
    {
      if loaded.None? {
        return;
      }
      var s := loaded.value;
      player.Move(s.playerX - player.x, s.playerY - player.y, LoadedPlayerSymbol);
      score := s.score;
      timeRemaining := s.timeRemaining;
      items.components := [];
      if s.grid.Some? {
        RestoreWalls(s.grid.value);
      }
      TrackedOnceWalls(items.components, timers);
    }

    /**
     * loadGame's grid loop over an emptied list: one wall per non-null, non-blank cell, row by
     * row, every row as wide as the first; a shorter row ends the loop with an index error.
     */
    method RestoreWalls(g: seq<seq<Option<Symbol>>>)
      requires items.components == []
      modifies items
      ensures items.components == WallParts(RestoreGrid(g))
    {
      ghost var walls: seq<Wall> := [];
      var y := 0;
      while y < |g|
        invariant 0 <= y <= |g|
        invariant |g| > 0 ==> walls + RestoredWalls(g, |g[0]|, y, 0) == RestoreGrid(g)
        invariant |g| == 0 ==> walls == []
        invariant items.components == WallParts(walls)
      {
        var complete;
        complete, walls := RestoreRow(g, y, walls);
        if !complete {
          return;
        }
        y := y + 1;
      }
    }

    /**
     * One row of loadGame's grid loop: the walls of row y, left to right, as far as the first
     * row's width; `complete` is false when the row is shorter and the index exception ends the
     * restore. `walls` are the walls restored so far.
     */
    method RestoreRow(g: seq<seq<Option<Symbol>>>, y: nat, ghost walls: seq<Wall>)
      returns (complete: bool, ghost walls': seq<Wall>)
      requires y < |g| && walls + RestoredWalls(g, |g[0]|, y, 0) == RestoreGrid(g)
      requires items.components == WallParts(walls)
      modifies items
      ensures items.components == WallParts(walls')
      ensures complete ==> walls' + RestoredWalls(g, |g[0]|, y + 1, 0) == RestoreGrid(g)
      ensures !complete ==> walls' == RestoreGrid(g)
    {
      walls' := walls;
      var x := 0;
      while x < |g[0]|
        invariant 0 <= x <= |g[0]|
        invariant walls' + RestoredWalls(g, |g[0]|, y, x) == RestoreGrid(g)
        invariant items.components == WallParts(walls')
      {
        if x >= |g[y]| {
          // the saved row is short: the index exception ends the restore here
          assert RestoredWalls(g, |g[0]|, y, x) == [];
          assert walls' + [] == walls';
          return false, walls';
        }
        var cell := g[y][x];
        RestoreCellStep(g, |g[0]|, y, x, walls', RestoreGrid(g));
        if cell.Some? && cell.value != Blank {
          WallPartsAppend(walls', Wall(x, y));
          items.Add(WallPart(Wall(x, y)));
          walls' := walls' + [Wall(x, y)];
        }
        x := x + 1;
      }
      assert RestoredWalls(g, |g[0]|, y, |g[0]|) == RestoredWalls(g, |g[0]|, y + 1, 0);
      complete := true;
    }

    /**
     * resetGame: empties the list and the timers, zeroes the score, sets the time to 60 seconds,
     * lays the ground and spawns one item. The active and polarity flags are left as they were.
     */
    method ResetGame(rolls: seq<Roll>, now: int) returns (rest: seq<Roll>, spawned: Option<Item>)
      modifies this, items
      ensures Valid()
      ensures score == 0 && recentScoreGained == 0 && !itemCollected && timeRemaining == ResetSeconds
      ensures gameActive == old(gameActive)
      ensures SpawnOutcome(old(gameActive), Tracking(Ground(), map[], old(spawnNegativeNext)), rolls, now, Tracked(), rest, spawned)
      ensures OnePerCell(items.components)
      ensures spawned.Some? ==> fresh(spawned.value)
    {
      items.components := [];
      timers := map[];
      score := 0;
      timeRemaining := ResetSeconds;
      recentScoreGained := 0;
      itemCollected := false;
      CreateGround();
      assert items.components == Ground();
      rest, spawned := SpawnNewItem(rolls, now);
      SpawnOnGround(gameActive, old(spawnNegativeNext), rolls, now, Tracked(), rest, spawned);
    }
  }

  /**
   * The removeIf sweep of checkItemCollision over the list `cs` at cell (x, y), starting from the
   * given score and recentScoreGained: each item on the cell is dropped, its score added, and it
   * becomes the most recent gain.
   */
  method SweepCell(cs: seq<MapComponent>, x: int, y: int, score: int, recent: int)
    returns (kept: seq<MapComponent>, collected: bool, score': int, recent': int)
    ensures kept == WithoutItemsAt(cs, x, y)
    ensures collected <==> ItemsAt(cs, x, y) != []
    ensures score' == score + ScoreSum(ItemsAt(cs, x, y))
    ensures recent' == if ItemsAt(cs, x, y) == [] then recent else Last(ItemsAt(cs, x, y)).score
  {
    kept, collected, score', recent' := [], false, score, recent;
    var i := 0;
    while i < |cs|
      invariant 0 <= i <= |cs|
      invariant kept == WithoutItemsAt(cs[..i], x, y)
      invariant collected <==> ItemsAt(cs[..i], x, y) != []
      invariant score' == score + ScoreSum(ItemsAt(cs[..i], x, y))
      invariant recent' == if ItemsAt(cs[..i], x, y) == [] then recent else Last(ItemsAt(cs[..i], x, y)).score
    {
      var c := cs[i];
      assert Init(cs[..i + 1]) == cs[..i];
      assert Last(cs[..i + 1]) == c;
      if c.ItemPart? && c.item.x == x && c.item.y == y {
        assert ItemsAt(cs[..i + 1], x, y) == ItemsAt(cs[..i], x, y) + [c.item];
        ghost var t := ItemsAt(cs[..i], x, y);
        assert Init(t + [c.item]) == t && Last(t + [c.item]) == c.item;
        assert ScoreSum(t + [c.item]) == ScoreSum(t) + c.item.score;
        recent' := c.item.score;
        score' := score' + recent';
        collected := true;
      } else {
        assert ItemsAt(cs[..i + 1], x, y) == ItemsAt(cs[..i], x, y);
        kept := kept + [c];
      }
      i := i + 1;
    }
    assert cs[..i] == cs;
  }

  /** validateOrInitializePlayer: a player outside the playable area is put back on the start cell. */
  method ValidateOrInitializePlayer(world: GameWorld, player: Player)
    modifies player`x, player`y
    ensures IsValidPosition(old(player.x), old(player.y)) ==> player.x == old(player.x) && player.y == old(player.y)
    ensures !IsValidPosition(old(player.x), old(player.y)) ==> player.x == PlayerStartX && player.y == PlayerStartY
    ensures IsValidPosition(player.x, player.y)
    ensures player.emoji == old(player.emoji)
  {
    if !IsValidPosition(player.x, player.y) {
      player.SetPosition(PlayerStartX, PlayerStartY);
    }
  }

  /** One turn of the physics loop as seen from outside: the clock, and whether stop() is called during it. */
  datatype TickInput = TickInput(now: int, stop: bool)

  /** The physics of one world and player: gravity steps and the expiry sweep, paused during manual moves. */
  class GamePhysics {
    const world: GameWorld
    const player: Player
    var running: bool
    var lastGroundTime: int
    var manualMovement: bool

    constructor (world: GameWorld, player: Player)
      ensures this.world == world && this.player == player
      ensures running && lastGroundTime == 0 && !manualMovement
    {
      this.world := world;
      this.player := player;
      running := true;
      lastGroundTime := 0;
      manualMovement := false;
    }

    method Stop()
      modifies this`running
      ensures !running
    {
      running := false;
    }

    method StartManualMovement()
      modifies this`manualMovement
      ensures manualMovement
    {
      manualMovement := true;
    }

    method EndManualMovement()
      modifies this`manualMovement
      ensures !manualMovement
    {
      manualMovement := false;
    }

    /**
     * applyGravity: skipped while a manual move is in progress; otherwise, if the cell below is
     * still above the ground rows, the player drops one row in the standing pose and collects
     * what lies there. The column never changes.
     */
    method ApplyGravity(rolls: seq<Roll>, now: int) returns (collected: bool, rest: seq<Roll>, spawned: Option<Item>)
      requires world.Valid()
      modifies player, world`score, world`recentScoreGained, world`timers, world`spawnNegativeNext, world.items
      ensures world.Valid()
      ensures world.gameActive == old(world.gameActive) && world.timeRemaining == old(world.timeRemaining) &&
              world.itemCollected == old(world.itemCollected)
      ensures (player.x, player.y) ==
                if manualMovement then (old(player.x), old(player.y)) else GravityDestination(old(player.x), old(player.y))
      ensures manualMovement || !GravityCanFall(old(player.y)) ==>
                unchanged(player, world, world.items) && !collected && rest == rolls && spawned == None
      ensures !manualMovement && GravityCanFall(old(player.y)) ==>
                player.emoji == StandingSymbol &&
                CollisionOutcome(old(world.gameActive), old(world.Tracked()), old(world.score), old(world.recentScoreGained),
                                 player.x, player.y, rolls, now, world.Tracked(), world.score, world.recentScoreGained,
                                 collected, rest, spawned)
      ensures spawned.Some? ==> fresh(spawned.value)
    {
      if manualMovement {
        return false, rolls, None;
      }
      if GravityCanFall(player.y) {
        ghost var before, score0, recent0 := world.Tracked(), world.score, world.recentScoreGained;
        ghost var destination := GravityDestination(player.x, player.y);
        player.Move(0, 1, StandingSymbol);
        assert (player.x, player.y) == destination;
        assert world.Tracked() == before && world.score == score0 && world.recentScoreGained == recent0 && world.Valid();
        collected, rest, spawned := world.CheckItemCollision(player, rolls, now);
        assert (player.x, player.y) == destination;
      } else {
        collected, rest, spawned := false, rolls, None;
      }
    }

    /** One turn of run(): a gravity step, then the world's expiry sweep, both at the same `now`. */
    method Tick(rolls: seq<Roll>, now: int) returns (rest: seq<Roll>)
      requires world.Valid()
      modifies player, world`score, world`recentScoreGained, world`timers, world`spawnNegativeNext, world.items
      ensures world.Valid()
      ensures world.gameActive == old(world.gameActive) && world.timeRemaining == old(world.timeRemaining) &&
              world.itemCollected == old(world.itemCollected)
      ensures (player.x, player.y) ==
                if manualMovement then (old(player.x), old(player.y)) else GravityDestination(old(player.x), old(player.y))
      ensures OnePerCell(old(world.items.components)) ==> OnePerCell(world.items.components)
    {
      ghost var one := OnePerCell(world.items.components);
      ghost var before, score0, recent0, active0 := world.Tracked(), world.score, world.recentScoreGained, world.gameActive;
      var collected, mid, spawned := ApplyGravity(rolls, now);
      if one && !manualMovement && GravityCanFall(old(player.y)) {
        CollisionKeepsOnePerCell(active0, before, score0, recent0, player.x, player.y, rolls, now, world.Tracked(),
                                 world.score, world.recentScoreGained, collected, mid, spawned);
      }
      var swept;
      rest, swept := world.UpdateItems(now, mid);
    }

    /**
     * run(): ticks while `running`, one tick per input; a stop() during a tick ends the loop
     * once that tick is over. The player stays in its column and, unless a manual move holds
     * gravity off, falls one row per tick down to the last playable row.
     */
    method Run(inputs: seq<TickInput>, rolls: seq<Roll>) returns (count: nat, rest: seq<Roll>)
      requires world.Valid()
      modifies this`running, player, world`score, world`recentScoreGained, world`timers, world`spawnNegativeNext, world.items
      ensures world.Valid()
      ensures count <= |inputs|
      ensures !old(running) ==> count == 0 && !running
      ensures running <==> old(running) && forall i :: 0 <= i < count ==> !inputs[i].stop
      ensures running ==> count == |inputs|
      ensures forall i :: 0 <= i < count - 1 ==> !inputs[i].stop
      ensures player.x == old(player.x)
      ensures manualMovement ==> player.y == old(player.y)
      ensures !manualMovement ==> player.y == FallSteps(old(player.y), count)
      ensures !manualMovement ==>
                player.y == if old(player.y) >= Height - 3 then old(player.y)
                            else if old(player.y) + count <= Height - 3 then old(player.y) + count
                            else Height - 3
      ensures IsValidPosition(old(player.x), old(player.y)) ==> IsValidPosition(player.x, player.y)
      ensures world.gameActive == old(world.gameActive) && world.timeRemaining == old(world.timeRemaining) &&
              world.itemCollected == old(world.itemCollected)
      ensures OnePerCell(old(world.items.components)) ==> OnePerCell(world.items.components)
    {
      ghost var one := OnePerCell(world.items.components);
      count, rest := 0, rolls;
      while running && count < |inputs|
        invariant count <= |inputs|
        invariant world.Valid()
        invariant !old(running) ==> count == 0 && !running
        invariant running <==> old(running) && forall i :: 0 <= i < count ==> !inputs[i].stop
        invariant forall i :: 0 <= i < count - 1 ==> !inputs[i].stop
        invariant player.x == old(player.x)
        invariant manualMovement ==> player.y == old(player.y)
        invariant !manualMovement ==> player.y == FallSteps(old(player.y), count)
        invariant one ==> OnePerCell(world.items.components)
      {
        rest := Tick(rest, inputs[count].now);
        if inputs[count].stop {
          Stop();
        }
        count := count + 1;
      }
      FallStepsClosedForm(old(player.y), count);
    }

    /**
     * checkGroundState: on the ground (the bottom row, or something below), the resting pose
     * comes back once more than 1000 ms have passed since the last time; off the ground the
     * clock restarts.
     */
    method CheckGroundState(now: int)
      modifies player`emoji, this`lastGroundTime
      ensures var grounded := player.y + 1 >= Height || !NoneAt(world.items.components, player.x, player.y + 1);
              (grounded && now - old(lastGroundTime) > GroundThreshold ==>
                 player.emoji == DefaultPlayerSymbol && lastGroundTime == now) &&
              (grounded && now - old(lastGroundTime) <= GroundThreshold ==>
                 player.emoji == old(player.emoji) && lastGroundTime == old(lastGroundTime)) &&
              (!grounded ==> player.emoji == old(player.emoji) && lastGroundTime == now)
      ensures player.x == old(player.x) && player.y == old(player.y)
    {
      if player.y + 1 >= Height || !world.IsCellEmpty(player.x, player.y + 1) {
        if now - lastGroundTime > GroundThreshold {
          player.SetEmoji(DefaultPlayerSymbol);
          lastGroundTime := now;
        }
      } else {
        lastGroundTime := now;
      }
    }
  }
}
