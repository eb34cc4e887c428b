/**
 * The value-level rules of GameWorld: grid constants, where a move or a gravity step takes the
 * player, the ground, which components a collision or an expiry sweep removes, what a rendered
 * cell shows and which walls a saved grid restores to. The classes in module Game are proved
 * against these functions.
 */
module GameRules {
  import opened Common
  import opened Model
  import opened Map
  import Factory

  const Width := 24
  const Height := 10
  /** Milliseconds an uncollected item lives (the default spawn-item interval of the settings). */
  const ItemLifetime := 4000
  const PlayerStartX := 5
  const PlayerStartY := 3
  /** The time left after resetGame, in seconds. */
  const ResetSeconds := 60

  // Player symbols
  const DefaultPlayerSymbol: Symbol := "\U{1F9CD}\U{1F3FB}\U{200D}\U{2642}\U{FE0F}"
  const StandingSymbol: Symbol := "\U{1F9CD}\U{200D}\U{2642}\U{FE0F}"
  const LoadedPlayerSymbol: Symbol := "\U{1F9CD}"
  const UpSymbol: Symbol := "\U{1F938}\U{1F3FB}\U{200D}\U{2642}\U{FE0F}"
  const DownSymbol: Symbol := "\U{1F9CE}\U{1F3FB}\U{200D}\U{2642}\U{FE0F}\U{200D}\U{27A1}\U{FE0F}"
  const LeftSymbol: Symbol := "\U{1F6B6}\U{1F3FB}\U{200D}\U{2642}\U{FE0F}"
  const RightSymbol: Symbol := "\U{1F6B6}\U{1F3FB}\U{200D}\U{2642}\U{FE0F}\U{200D}\U{27A1}\U{FE0F}"

  /**
   * One outcome of the random draws a spawn makes: a cell (nextInt(WIDTH), nextInt(HEIGHT - 2))
   * and a factory table index (nextInt(5)).
   */
  datatype Draw = Draw(x: int, y: int, index: int)
  type Roll = d: Draw | 0 <= d.x < Width && 0 <= d.y < Height - 2 && 0 <= d.index < Factory.TableSize
    witness Draw(0, 0, 0)

  /** GameWorld.isValidPosition: a cell the player may occupy (the two bottom rows are ground). */
  predicate IsValidPosition(x: int, y: int) {
    0 <= x < Width && 0 <= y < Height - 2
  }

  /** A cell of the rendered grid. */
  predicate InGrid(x: int, y: int) {
    0 <= x < Width && 0 <= y < Height
  }

  /** The playable cells are exactly the cells of the grid that the ground leaves free. */
  lemma {:induction false} PlayableCells(x: int, y: int)
    ensures IsValidPosition(x, y) <==> InGrid(x, y) && NoneAt(Ground(), x, y)
  {
    if IsValidPosition(x, y) {
      GroundLeavesPlayableFree(x, y);
    } else if InGrid(x, y) {
      GroundLayout();
      var k :| 0 <= k < |Ground()| && Ground()[k] == WallPart(Wall(x, y));
      assert Ground()[k].At(x, y);
    }
  }

  // ---------------------------------------------------------------- movement

  /** The cell movePlayer aims at: one step for W, S, A, D, the current cell for anything else. */
  function Target(x: int, y: int, dir: string): (t: (int, int))
    ensures dir in {"W", "S", "A", "D"} ==>
              (t.0 == x && (t.1 == y - 1 || t.1 == y + 1)) || (t.1 == y && (t.0 == x - 1 || t.0 == x + 1))
    ensures dir !in {"W", "S", "A", "D"} ==> t == (x, y)
  {
    if dir == "W" then (x, y - 1)
    else if dir == "S" then (x, y + 1)
    else if dir == "A" then (x - 1, y)
    else if dir == "D" then (x + 1, y)
    else (x, y)
  }

  /** directionToEmoji: the pose shown after a move. */
  function DirectionSymbol(dir: string): (s: Symbol)
    ensures s == StandingSymbol <==> dir !in {"W", "S", "A", "D"}
    ensures s != Blank
  {
    if dir == "W" then UpSymbol
    else if dir == "S" then DownSymbol
    else if dir == "A" then LeftSymbol
    else if dir == "D" then RightSymbol
    else StandingSymbol
  }

  /**
   * Where movePlayer leaves the player: the target when it is a valid position, otherwise the
   * start. A valid start therefore stays valid, and the player never moves more than one cell.
   */
  function MoveDestination(x: int, y: int, dir: string): (p: (int, int))
    ensures IsValidPosition(p.0, p.1) || p == (x, y)
    ensures IsValidPosition(x, y) ==> IsValidPosition(p.0, p.1)
    ensures p == (x, y) || (p.0 == x && (p.1 == y - 1 || p.1 == y + 1)) || (p.1 == y && (p.0 == x - 1 || p.0 == x + 1))
  {
    var t := Target(x, y, dir);
    if IsValidPosition(t.0, t.1) then t else (x, y)
  }

  /** applyGravity's test: the cell below is still above the ground rows. */
  predicate GravityCanFall(y: int) {
    y + 1 < Height - 2
  }

  /** Gravity never takes the player below the last playable row, and never changes the column. */
  function GravityDestination(x: int, y: int): (p: (int, int))
    ensures p.0 == x
    ensures y < Height - 2 ==> p.1 < Height - 2
    ensures p.1 == y || p.1 == y + 1
  {
    if GravityCanFall(y) then (x, y + 1) else (x, y)
  }

  /** The row a player starting in row y reaches after n gravity steps, one GravityDestination at a time. */
  function FallSteps(y: int, n: nat): int {
    if n == 0 then y else GravityDestination(0, FallSteps(y, n - 1)).1
  }

  /**
   * The closed form of n gravity steps: a player above the last playable row (Height - 3) drops
   * one row per step until it reaches that row; a player on or below it stays where it is.
   */
  lemma {:induction false} FallStepsClosedForm(y: int, n: nat)
    ensures FallSteps(y, n) ==
              if y >= Height - 3 then y else if y + n <= Height - 3 then y + n else Height - 3
  {
    if n > 0 {
      FallStepsClosedForm(y, n - 1);
    }
  }

  // ---------------------------------------------------------------- ground

  /** The walls createGround appends: rows HEIGHT-2 and HEIGHT-1, each from x = 0 to WIDTH-1. */
  function Ground(): seq<MapComponent> {
    seq(2 * Width, k requires 0 <= k < 2 * Width => WallPart(Wall(k % Width, Height - 2 + k / Width)))
  }

  /** The ground is exactly 48 distinct walls, covering every cell of the two bottom rows and nothing else. */
  lemma {:induction false} GroundLayout()
    ensures |Ground()| == 2 * Width
    ensures forall c :: c in Ground() ==> c.WallPart? && 0 <= c.wall.x < Width && Height - 2 <= c.wall.y < Height
    ensures forall x, y :: 0 <= x < Width && Height - 2 <= y < Height ==> WallPart(Wall(x, y)) in Ground()
    ensures forall i, j :: 0 <= i < j < |Ground()| ==> Ground()[i] != Ground()[j]
  {
    var g := Ground();
    forall x, y | 0 <= x < Width && Height - 2 <= y < Height
      ensures WallPart(Wall(x, y)) in g
    {
      var k := if y == Height - 2 then x else Width + x;
      assert g[k] == WallPart(Wall(x, y));
    }
    forall i, j | 0 <= i < j < |g| ensures g[i] != g[j] {
      if j < Width || Width <= i {
        assert g[i].wall.x != g[j].wall.x;
      } else {
        assert g[i].wall.y != g[j].wall.y;
      }
    }
  }

  /** No ground wall stands on a playable cell. */
  lemma {:induction false} GroundLeavesPlayableFree(x: int, y: int)
    requires IsValidPosition(x, y)
    ensures NoneAt(Ground(), x, y)
  {
    GroundLayout();
    forall i | 0 <= i < |Ground()| ensures !Ground()[i].At(x, y) {
      assert Ground()[i] in Ground();
    }
  }

  // ---------------------------------------------------------------- collision

  /** The items of the list on (x, y), in list order: what checkItemCollision's removeIf takes. */
  function ItemsAt(cs: seq<MapComponent>, x: int, y: int): seq<Item>
  {
    if cs == [] then []
    else if Last(cs).ItemPart? && Last(cs).At(x, y) then ItemsAt(Init(cs), x, y) + [Last(cs).item]
    else ItemsAt(Init(cs), x, y)
  }

  /** The list after removeIf: every component except the items on (x, y), in the same order. */
  function WithoutItemsAt(cs: seq<MapComponent>, x: int, y: int): seq<MapComponent>
  {
    if cs == [] then []
    else if Last(cs).ItemPart? && Last(cs).At(x, y) then WithoutItemsAt(Init(cs), x, y)
    else WithoutItemsAt(Init(cs), x, y) + [Last(cs)]
  }

  function ScoreSum(items: seq<Item>): int {
    if items == [] then 0 else ScoreSum(Init(items)) + Last(items).score
  }

  /** The components that refer to the given items, in order. */
  function Parts(items: seq<Item>): seq<MapComponent> {
    seq(|items|, i requires 0 <= i < |items| => ItemPart(items[i]))
  }

  /** The collision sweep loses nothing: the kept components and the taken items make up the list. */
  lemma {:induction false} CollectCounts(cs: seq<MapComponent>, x: int, y: int)
    ensures multiset(WithoutItemsAt(cs, x, y)) + multiset(Parts(ItemsAt(cs, x, y))) == multiset(cs)
    ensures |WithoutItemsAt(cs, x, y)| + |ItemsAt(cs, x, y)| == |cs|
  {
    if cs != [] {
      var init, last := Init(cs), Last(cs);
      CollectCounts(init, x, y);
      CollectStep(cs, x, y);
    }
  }

  /** One step of CollectCounts: how the last component of the list is sorted. */
  lemma {:induction false} CollectStep(cs: seq<MapComponent>, x: int, y: int)
    requires cs != []
    ensures multiset(cs) == multiset(Init(cs)) + multiset{Last(cs)}
    ensures Last(cs).ItemPart? && Last(cs).At(x, y) ==>
      WithoutItemsAt(cs, x, y) == WithoutItemsAt(Init(cs), x, y) &&
      multiset(Parts(ItemsAt(cs, x, y))) == multiset(Parts(ItemsAt(Init(cs), x, y))) + multiset{Last(cs)}
    ensures !(Last(cs).ItemPart? && Last(cs).At(x, y)) ==>
      ItemsAt(cs, x, y) == ItemsAt(Init(cs), x, y) &&
      multiset(WithoutItemsAt(cs, x, y)) == multiset(WithoutItemsAt(Init(cs), x, y)) + multiset{Last(cs)}
  {
    var init, last := Init(cs), Last(cs);
    assert init + [last] == cs;
    var taken := ItemsAt(init, x, y);
    if last.ItemPart? && last.At(x, y) {
      assert ItemsAt(cs, x, y) == taken + [last.item];
      assert Parts(taken + [last.item]) == Parts(taken) + [last];
    }
  }

  lemma {:induction false} CollectPlaces(cs: seq<MapComponent>, x: int, y: int)
    ensures forall it :: it in ItemsAt(cs, x, y) ==> it.x == x && it.y == y
    ensures forall c :: c in WithoutItemsAt(cs, x, y) ==> !(c.ItemPart? && c.At(x, y))
    ensures ItemsAt(cs, x, y) == [] ==> WithoutItemsAt(cs, x, y) == cs
  {
    if cs != [] {
      var init, last := Init(cs), Last(cs);
      CollectPlaces(init, x, y);
      assert init + [last] == cs;
    }
  }

  /**
   * A collision splits the list: the removed items are exactly the items on (x, y), the rest is
   * kept (walls included, whatever their cell), and nothing is removed iff the list is unchanged.
   */
  lemma {:induction false} CollectPartition(cs: seq<MapComponent>, x: int, y: int)
    ensures multiset(WithoutItemsAt(cs, x, y)) + multiset(Parts(ItemsAt(cs, x, y))) == multiset(cs)
    ensures forall it :: it in ItemsAt(cs, x, y) ==> it.x == x && it.y == y
    ensures forall c :: c in WithoutItemsAt(cs, x, y) ==> !(c.ItemPart? && c.At(x, y))
    ensures forall c :: c in cs && c.WallPart? ==> c in WithoutItemsAt(cs, x, y)
    ensures ItemsAt(cs, x, y) == [] <==> WithoutItemsAt(cs, x, y) == cs
  {
    CollectCounts(cs, x, y);
    CollectPlaces(cs, x, y);
    var kept, parts := WithoutItemsAt(cs, x, y), Parts(ItemsAt(cs, x, y));
    forall c | c in cs && c.WallPart? ensures c in kept {
      assert c in multiset(cs);
      assert c !in multiset(parts);
    }
  }

  // ---------------------------------------------------------------- expiry

  /** The tracked items whose age strictly exceeds the lifetime at time `now`. */
  function Expired(timers: map<Item, int>, now: int): set<Item> {
    set it | it in timers && now - timers[it] > ItemLifetime
  }

  /** The timer entries an expiry sweep at `now` keeps. */
  function Surviving(timers: map<Item, int>, now: int): map<Item, int> {
    map it | it in timers && now - timers[it] <= ItemLifetime :: timers[it]
  }

  /** The list without the components that refer to an item of `gone`, in the same order. */
  function Without(cs: seq<MapComponent>, gone: set<Item>): seq<MapComponent> {
    if cs == [] then []
    else if Last(cs).ItemPart? && Last(cs).item in gone then Without(Init(cs), gone)
    else Without(Init(cs), gone) + [Last(cs)]
  }

  lemma {:induction false} WithoutMembers(cs: seq<MapComponent>, gone: set<Item>)
    ensures forall c :: c in Without(cs, gone) <==> c in cs && !(c.ItemPart? && c.item in gone)
  {
    if cs != [] {
      WithoutMembers(Init(cs), gone);
      assert Init(cs) + [Last(cs)] == cs;
    }
  }

  lemma WithoutMember(cs: seq<MapComponent>, gone: set<Item>, c: MapComponent)
    requires c in Without(cs, gone)
    ensures c in cs
  {
    WithoutMembers(cs, gone);
  }

  lemma {:induction false} WithoutConcat(a: seq<MapComponent>, b: seq<MapComponent>, gone: set<Item>)
    ensures Without(a + b, gone) == Without(a, gone) + Without(b, gone)
  {
    if b != [] {
      WithoutConcat(a, Init(b), gone);
      assert Init(a + b) == a + Init(b);
      assert Last(a + b) == Last(b);
    } else {
      assert a + b == a;
    }
  }

  lemma {:induction false} WithoutNothing(cs: seq<MapComponent>, gone: set<Item>)
    requires forall c :: c in cs ==> !(c.ItemPart? && c.item in gone)
    ensures Without(cs, gone) == cs
  {
    if cs != [] {
      assert cs == Init(cs) + [Last(cs)];
      forall c | c in Init(cs) ensures !(c.ItemPart? && c.item in gone) {
        assert c in cs;
      }
      WithoutNothing(Init(cs), gone);
    }
  }

  lemma {:induction false} WithoutTwice(cs: seq<MapComponent>, gone: set<Item>, it: Item)
    ensures Without(Without(cs, gone), {it}) == Without(cs, gone + {it})
  {
    if cs != [] {
      var last := Last(cs);
      WithoutTwice(Init(cs), gone, it);
      var tail := if last.ItemPart? && last.item in gone then [] else [last];
      WithoutConcat(Without(Init(cs), gone), tail, {it});
    }
  }

  /** Filtering only ever drops elements. */
  lemma {:induction false} WithoutShrinks(cs: seq<MapComponent>, gone: set<Item>)
    ensures multiset(Without(cs, gone)) <= multiset(cs)
  {
    if cs != [] {
      WithoutShrinks(Init(cs), gone);
      assert Init(cs) + [Last(cs)] == cs;
    }
  }

  /** A component that occurs at most once occurs neither before nor after its occurrence. */
  lemma OnlyOnce(pre: seq<MapComponent>, c: MapComponent, post: seq<MapComponent>)
    requires multiset(pre + [c] + post)[c] <= 1
    ensures c !in pre && c !in post
  {
    assert multiset(pre + [c] + post) == multiset(pre) + multiset{c} + multiset(post);
  }

  /** Filtering one item out of pre + [its component] + post, where pre and post lack it. */
  lemma {:induction false} WithoutSplit(pre: seq<MapComponent>, post: seq<MapComponent>, it: Item)
    requires forall d :: d in pre ==> d != ItemPart(it)
    requires forall d :: d in post ==> d != ItemPart(it)
    ensures Without(pre + [ItemPart(it)] + post, {it}) == pre + post
  {
    var c, gone := ItemPart(it), {it};
    assert forall d :: d in pre ==> !(d.ItemPart? && d.item in gone);
    assert forall d :: d in post ==> !(d.ItemPart? && d.item in gone);
    WithoutNothing(pre, gone);
    WithoutNothing(post, gone);
    WithoutConcat(pre + [c], post, gone);
    WithoutConcat(pre, [c], gone);
    assert Without([c], gone) == Without([], gone) + [] by {
      assert Init([c]) == [] && Last([c]) == c;
    }
  }

  /** ItemGroup.remove of an item that occurs at most once is the same as filtering it out. */
  lemma {:induction false} RemoveFirstIsWithout(cs: seq<MapComponent>, it: Item)
    requires multiset(cs)[ItemPart(it)] <= 1
    ensures RemoveFirst(cs, ItemPart(it)) == Without(cs, {it})
  {
    var c := ItemPart(it);
    if c in cs {
      var k :| 0 <= k < |cs| && cs[k] == c;
      var pre, post := cs[..k], cs[k + 1..];
      assert cs == pre + [c] + post;
      OnlyOnce(pre, c, post);
      assert forall j :: 0 <= j < k ==> cs[j] == pre[j];
      assert forall d :: d in pre ==> d != c;
      assert forall d :: d in post ==> d != c;
      RemoveFirstAt(cs, c, k);
      WithoutSplit(pre, post, it);
      assert cs == pre + [c] + post;
    } else {
      RemoveFirstAbsent(cs, c);
      WithoutNothing(cs, {it});
    }
  }

  // ---------------------------------------------------------------- list invariants

  /** How many times `c` occurs in `cs`. */
  function Occurrences(cs: seq<MapComponent>, c: MapComponent): nat {
    if cs == [] then 0 else Occurrences(Init(cs), c) + (if Last(cs) == c then 1 else 0)
  }

  /** Occurrences is the multiplicity in the list's multiset. */
  lemma {:induction false} OccurrencesCount(cs: seq<MapComponent>, c: MapComponent)
    ensures Occurrences(cs, c) == multiset(cs)[c]
  {
    if cs != [] {
      OccurrencesCount(Init(cs), c);
      assert cs == Init(cs) + [Last(cs)];
      assert multiset(cs) == multiset(Init(cs)) + multiset{Last(cs)};
    }
  }

  /**
   * Every item that has a creation time occurs at most once in the list, so removing its first
   * occurrence removes it altogether.
   */
  predicate TrackedOnce(cs: seq<MapComponent>, timers: map<Item, int>) {
    forall it :: it in timers ==> Occurrences(cs, ItemPart(it)) <= 1
  }

  /** A tracked item occurs at most once in the list. */
  lemma TrackedOnceAt(cs: seq<MapComponent>, timers: map<Item, int>, it: Item)
    requires TrackedOnce(cs, timers) && it in timers
    ensures multiset(cs)[ItemPart(it)] <= 1
  {
    OccurrencesCount(cs, ItemPart(it));
  }

  /** Dropping components and creation times keeps every tracked item at most once in the list. */
  lemma TrackedOnceShrink(cs: seq<MapComponent>, timers: map<Item, int>, cs': seq<MapComponent>, timers': map<Item, int>)
    requires TrackedOnce(cs, timers)
    requires multiset(cs') <= multiset(cs) && timers'.Keys <= timers.Keys
    ensures TrackedOnce(cs', timers')
  {
    forall it | it in timers' ensures Occurrences(cs', ItemPart(it)) <= 1 {
      TrackedOnceAt(cs, timers, it);
      OccurrencesCount(cs', ItemPart(it));
    }
  }

  /** A list of walls holds no item, tracked or not. */
  lemma TrackedOnceWalls(cs: seq<MapComponent>, timers: map<Item, int>)
    requires forall i :: 0 <= i < |cs| ==> cs[i].WallPart?
    ensures TrackedOnce(cs, timers)
  {
    forall it | it in timers ensures Occurrences(cs, ItemPart(it)) <= 1 {
      assert ItemPart(it) !in cs;
      OccurrencesCount(cs, ItemPart(it));
    }
  }

  /** A collision only drops components, so it keeps every tracked item at most once in the list. */
  lemma TrackedOnceCollect(cs: seq<MapComponent>, timers: map<Item, int>, x: int, y: int)
    requires TrackedOnce(cs, timers)
    ensures TrackedOnce(WithoutItemsAt(cs, x, y), timers)
  {
    CollectCounts(cs, x, y);
    TrackedOnceShrink(cs, timers, WithoutItemsAt(cs, x, y), timers);
  }

  /** Appending a component that is not a tracked item, or a new item with its creation time, keeps TrackedOnce. */
  lemma TrackedOnceAppend(cs: seq<MapComponent>, timers: map<Item, int>, c: MapComponent, timers': map<Item, int>)
    requires TrackedOnce(cs, timers)
    requires c.ItemPart? ==> c !in cs
    requires c.ItemPart? ==> timers'.Keys <= timers.Keys + {c.item}
    requires c.WallPart? ==> timers'.Keys <= timers.Keys
    ensures TrackedOnce(cs + [c], timers')
  {
    forall it | it in timers' ensures Occurrences(cs + [c], ItemPart(it)) <= 1 {
      OccurrencesCount(cs + [c], ItemPart(it));
      assert multiset(cs + [c]) == multiset(cs) + multiset{c};
      if ItemPart(it) != c {
        assert it in timers;
        TrackedOnceAt(cs, timers, it);
      } else {
        assert multiset(cs)[c] == 0;
      }
    }
  }

  /** At most one component on every cell. */
  predicate OnePerCell(cs: seq<MapComponent>)
  {
    forall i, j :: 0 <= i < j < |cs| ==> !(cs[i].X() == cs[j].X() && cs[i].Y() == cs[j].Y())
  }

  lemma {:induction false} OnePerCellAppend(cs: seq<MapComponent>, c: MapComponent)
    requires OnePerCell(cs)
    requires NoneAt(cs, c.X(), c.Y())
    ensures OnePerCell(cs + [c])
  {
    var s := cs + [c];
    forall i, j | 0 <= i < j < |s| ensures !(s[i].X() == s[j].X() && s[i].Y() == s[j].Y()) {
      if j == |cs| {
        assert !cs[i].At(c.X(), c.Y());
      }
    }
  }

  /** Appending the last element of a one-per-cell list to a list drawn from its other elements keeps one per cell. */
  lemma {:induction false} OnePerCellAppendFrom(init: seq<MapComponent>, last: MapComponent, w: seq<MapComponent>)
    requires OnePerCell(init + [last])
    requires OnePerCell(w)
    requires forall c :: c in w ==> c in init
    ensures OnePerCell(w + [last])
  {
    var cs := init + [last];
    forall i | 0 <= i < |w| ensures !w[i].At(last.X(), last.Y()) {
      var c := w[i];
      assert c in init;
      var k :| 0 <= k < |init| && init[k] == c;
      assert cs[k] == c && cs[|cs| - 1] == last;
    }
    OnePerCellAppend(w, last);
  }

  /** Filtering items out of a list with one component per cell keeps one component per cell. */
  lemma {:induction false} OnePerCellWithout(cs: seq<MapComponent>, gone: set<Item>)
    requires OnePerCell(cs)
    ensures OnePerCell(Without(cs, gone))
  {
    if cs != [] {
      var init, last := Init(cs), Last(cs);
      assert init + [last] == cs;
      assert OnePerCell(init);
      OnePerCellWithout(init, gone);
      forall c | c in Without(init, gone) ensures c in init {
        WithoutMember(init, gone, c);
      }
      if !(last.ItemPart? && last.item in gone) {
        OnePerCellAppendFrom(init, last, Without(init, gone));
      }
    }
  }

  /** Removing the items of one cell keeps one component per cell. */
  lemma {:induction false} OnePerCellWithoutItemsAt(cs: seq<MapComponent>, x: int, y: int)
    requires OnePerCell(cs)
    ensures OnePerCell(WithoutItemsAt(cs, x, y))
  {
    if cs != [] {
      var init, last := Init(cs), Last(cs);
      assert init + [last] == cs;
      assert OnePerCell(init);
      OnePerCellWithoutItemsAt(init, x, y);
      var w := WithoutItemsAt(init, x, y);
      if !(last.ItemPart? && last.At(x, y)) {
        CollectCounts(init, x, y);
        forall c | c in w ensures c in init {
          assert c in multiset(w);
          assert c in multiset(init);
        }
        OnePerCellAppendFrom(init, last, w);
      }
    }
  }

  /** The ground has one wall per cell. */
  lemma {:induction false} GroundOnePerCell()
    ensures OnePerCell(Ground())
  {
    GroundLayout();
  }

  // ---------------------------------------------------------------- spawning

  /**
   * The index of the first roll whose cell is empty (the roll spawnNewItem's rejection loop
   * stops at), or the number of rolls when none is.
   */
  function FirstEmpty(cs: seq<MapComponent>, rolls: seq<Roll>): (k: nat)
    ensures k <= |rolls|
    ensures k < |rolls| ==> NoneAt(cs, rolls[k].x, rolls[k].y)
    ensures forall j :: 0 <= j < k ==> !NoneAt(cs, rolls[j].x, rolls[j].y)
    decreases |rolls|
  {
    if rolls == [] || NoneAt(cs, rolls[0].x, rolls[0].y) then 0
    else
      var k := 1 + FirstEmpty(cs, rolls[1..]);
      assert forall j :: 1 <= j < k ==> rolls[j] == rolls[1..][j - 1];
      k
  }

  /** The parts of the world a spawn touches: the component list, the creation times and the polarity flag. */
  datatype Tracking = Tracking(components: seq<MapComponent>, timers: map<Item, int>, negativeNext: bool)

  /**
   * What spawnNewItem does, given whether the game is active, the state before, the random draws
   * and the clock: when inactive, nothing; otherwise the first draw on an empty cell places an
   * item from the factory the flag selects, appends it, records its creation time and flips the
   * flag. With no such draw the draws run out and nothing is placed.
   */
  ghost predicate SpawnOutcome(active: bool, before: Tracking, rolls: seq<Roll>, now: int,
                               after: Tracking, rest: seq<Roll>, spawned: Option<Item>)
  {
    var k := FirstEmpty(before.components, rolls);
    if !active || k == |rolls| then
      after == before && spawned == None && rest == (if active then [] else rolls)
    else
      var r := rolls[k];
      spawned.Some? &&
      var it := spawned.value;
      it.x == r.x && it.y == r.y &&
      Factory.Entry(it.emoji, it.score) ==
        (if before.negativeNext then Factory.NegativeEntry(r.index) else Factory.PositiveEntry(r.index)) &&
      after == Tracking(before.components + [ItemPart(it)], before.timers[it := now], !before.negativeNext) &&
      rest == rolls[k + 1..]
  }

  /**
   * A spawn happens iff the game is active and some draw hits an empty cell; the item then lies
   * on a playable cell that was empty, and every earlier draw hit an occupied cell.
   */
  lemma {:induction false} SpawnOnEmptyCell(active: bool, before: Tracking, rolls: seq<Roll>, now: int,
                                            after: Tracking, rest: seq<Roll>, spawned: Option<Item>)
    requires SpawnOutcome(active, before, rolls, now, after, rest, spawned)
    ensures spawned.Some? <==> active && exists j :: 0 <= j < |rolls| && NoneAt(before.components, rolls[j].x, rolls[j].y)
    ensures spawned.Some? ==>
              IsValidPosition(spawned.value.x, spawned.value.y) &&
              NoneAt(before.components, spawned.value.x, spawned.value.y) &&
              after.components == before.components + [ItemPart(spawned.value)]
    ensures spawned.None? ==> after == before
  {
    var k := FirstEmpty(before.components, rolls);
    if active && exists j :: 0 <= j < |rolls| && NoneAt(before.components, rolls[j].x, rolls[j].y) {
      var j :| 0 <= j < |rolls| && NoneAt(before.components, rolls[j].x, rolls[j].y);
      assert k <= j;
    }
  }

  /** The item is negative iff the flag was set, its score comes from that factory's table, and the flag flips. */
  lemma {:induction false} SpawnPolarity(active: bool, before: Tracking, rolls: seq<Roll>, now: int,
                                         after: Tracking, rest: seq<Roll>, spawned: Option<Item>)
    requires SpawnOutcome(active, before, rolls, now, after, rest, spawned)
    requires spawned.Some?
    ensures spawned.value.score < 0 <==> before.negativeNext
    ensures before.negativeNext ==> spawned.value.score in {-5, -15, -20, -25, -50}
    ensures !before.negativeNext ==> spawned.value.score in {5, 10, 20, 25, 50}
    ensures after.negativeNext == !before.negativeNext
  {
    var k := FirstEmpty(before.components, rolls);
    var r := rolls[k];
    var e := if before.negativeNext then Factory.NegativeEntry(r.index) else Factory.PositiveEntry(r.index);
    assert spawned.value.score == e.score;
  }

  /** A spawn keeps one component per cell, because its cell was empty. */
  lemma {:induction false} SpawnKeepsOnePerCell(active: bool, before: Tracking, rolls: seq<Roll>, now: int,
                                                after: Tracking, rest: seq<Roll>, spawned: Option<Item>)
    requires SpawnOutcome(active, before, rolls, now, after, rest, spawned)
    requires OnePerCell(before.components)
    ensures OnePerCell(after.components)
  {
    SpawnOnEmptyCell(active, before, rolls, now, after, rest, spawned);
    if spawned.Some? {
      OnePerCellAppend(before.components, ItemPart(spawned.value));
    }
  }

  /**
   * Spawning on the bare ground (the constructor and resetGame): the first draw always hits an
   * empty cell, so an active game gets exactly the ground plus one item at that draw, tracked
   * alone; the result has one component per cell.
   */
  lemma {:induction false} SpawnOnGround(active: bool, negativeNext: bool, rolls: seq<Roll>, now: int,
                                         after: Tracking, rest: seq<Roll>, spawned: Option<Item>)
    requires SpawnOutcome(active, Tracking(Ground(), map[], negativeNext), rolls, now, after, rest, spawned)
    ensures OnePerCell(after.components)
    ensures active && rolls != [] ==>
              spawned.Some? && rest == rolls[1..] &&
              spawned.value.x == rolls[0].x && spawned.value.y == rolls[0].y &&
              (spawned.value.score < 0 <==> negativeNext) &&
              after == Tracking(Ground() + [ItemPart(spawned.value)], map[spawned.value := now], !negativeNext)
    ensures !active || rolls == [] ==> spawned == None && after == Tracking(Ground(), map[], negativeNext)
  {
    var before := Tracking(Ground(), map[], negativeNext);
    GroundOnePerCell();
    SpawnKeepsOnePerCell(active, before, rolls, now, after, rest, spawned);
    if rolls != [] {
      GroundLeavesPlayableFree(rolls[0].x, rolls[0].y);
      assert FirstEmpty(Ground(), rolls) == 0;
      if active {
        SpawnPolarity(active, before, rolls, now, after, rest, spawned);
      }
    }
  }

  /** The creation times of the given items, all at `now`. */
  function SpawnTimes(items: seq<Item>, now: int): map<Item, int> {
    map it | it in items :: now
  }

  /** Removing one more expired item from a list that ends in replacements which are not that item. */
  lemma ExpireStep(cs: seq<MapComponent>, removed: set<Item>, spawned: seq<Item>, it: Item)
    requires forall i :: 0 <= i < |spawned| ==> spawned[i] != it
    ensures Without(Without(cs, removed) + Parts(spawned), {it}) == Without(cs, removed + {it}) + Parts(spawned)
  {
    WithoutConcat(Without(cs, removed), Parts(spawned), {it});
    WithoutTwice(cs, removed, it);
    WithoutNothing(Parts(spawned), {it});
  }

  /**
   * A spawn in an active game, summed up: the list gains the spawned item (if any) at its end,
   * the timers gain its creation time, the flag flips iff an item was placed, the item lies on
   * a playable cell that was empty and is negative iff the flag was set; and no item is placed
   * only when the draws ran out.
   */
  lemma SpawnSummary(before: Tracking, rolls: seq<Roll>, now: int,
                     after: Tracking, rest: seq<Roll>, spawned: Option<Item>)
    requires SpawnOutcome(true, before, rolls, now, after, rest, spawned)
    ensures after.components == before.components + Parts(Listed(spawned))
    ensures after.timers == before.timers + SpawnTimes(Listed(spawned), now)
    ensures after.negativeNext == (before.negativeNext != spawned.Some?)
    ensures spawned.Some? ==>
              IsValidPosition(spawned.value.x, spawned.value.y) &&
              NoneAt(before.components, spawned.value.x, spawned.value.y) &&
              (spawned.value.score < 0 <==> before.negativeNext)
    ensures spawned.Some? ==> rolls != []
    ensures spawned.None? ==> rest == []
    ensures OnePerCell(before.components) ==> OnePerCell(after.components)
  {
    SpawnOnEmptyCell(true, before, rolls, now, after, rest, spawned);
    if OnePerCell(before.components) {
      SpawnKeepsOnePerCell(true, before, rolls, now, after, rest, spawned);
    }
    if spawned.Some? {
      SpawnPolarity(true, before, rolls, now, after, rest, spawned);
      assert Parts(Listed(spawned)) == [ItemPart(spawned.value)];
      assert SpawnTimes(Listed(spawned), now) == map[spawned.value := now];
    } else {
      assert SpawnTimes([], now) == map[];
    }
  }

  /** The spawned item of an optional spawn, as a list of zero or one items. */
  function Listed(spawned: Option<Item>): seq<Item> {
    if spawned.Some? then [spawned.value] else []
  }

  lemma PartsConcat(a: seq<Item>, b: seq<Item>)
    ensures Parts(a + b) == Parts(a) + Parts(b)
  {
  }

  /** The timer entries left after dropping the items of `removed`. */
  function Drop(timers: map<Item, int>, removed: set<Item>): map<Item, int> {
    map it | it in timers && it !in removed :: timers[it]
  }

  /**
   * One expiry step on the timers: dropping `it` from the surviving entries plus the creation
   * times of the replacements so far, then adding the new replacements' creation times.
   */
  lemma TimersStep(timers0: map<Item, int>, removed: set<Item>, spawned: seq<Item>, it: Item,
                   added: seq<Item>, now: int)
    requires it !in spawned && it !in added
    ensures (Drop(timers0, removed) + SpawnTimes(spawned, now)) - {it} + SpawnTimes(added, now) ==
            Drop(timers0, removed + {it}) + SpawnTimes(spawned + added, now)
  {
  }

  /**
   * Where updateItems' sweep stands over the timers `timers0` it started from, with `todo` the
   * entries not yet visited: exactly the visited expired items are `removed` from the start list
   * `cs0` and from the timers, the replacements `spawned` so far are distinct new items that sit
   * at the end of the list with their creation times, their signs alternate from `neg0` on, and one replacement was placed per
   * removal unless the draws ran out.
   */
  ghost predicate Sweeping(timers0: map<Item, int>, cs0: seq<MapComponent>, neg0: bool, now: int,
                           todo: set<Item>, removed: set<Item>, components: seq<MapComponent>,
                           timers: map<Item, int>, negativeNext: bool, rest: seq<Roll>, spawned: seq<Item>)
  {
    todo <= timers0.Keys && removed <= timers0.Keys && removed !! todo &&
    (forall it :: it in timers0 && it !in todo ==> (it in removed <==> now - timers0[it] > ItemLifetime)) &&
    components == Without(cs0, removed) + Parts(spawned) &&
    timers == Drop(timers0, removed) + SpawnTimes(spawned, now) &&
    (forall i :: 0 <= i < |spawned| ==> IsValidPosition(spawned[i].x, spawned[i].y)) &&
    (forall i :: 0 <= i < |spawned| ==> spawned[i] !in timers0) &&
    (forall i, j :: 0 <= i < j < |spawned| ==> spawned[i] != spawned[j]) &&
    (forall i :: 0 <= i < |spawned| ==> (spawned[i].score < 0 <==> (neg0 != (i % 2 == 1)))) &&
    negativeNext == (neg0 != (|spawned| % 2 == 1)) &&
    |spawned| <= |removed| && (rest != [] ==> |spawned| == |removed|)
  }

  /** The sweep starts with every entry to visit and nothing removed or spawned. */
  lemma SweepStart(timers0: map<Item, int>, cs0: seq<MapComponent>, neg0: bool, now: int, rolls: seq<Roll>)
    ensures Sweeping(timers0, cs0, neg0, now, timers0.Keys, {}, cs0, timers0, neg0, rolls, [])
  {
    WithoutNothing(cs0, {});
    assert Drop(timers0, {}) + SpawnTimes([], now) == timers0;
  }

  /** An unvisited entry is no replacement and is still tracked with its original creation time. */
  lemma SweepVisit(timers0: map<Item, int>, cs0: seq<MapComponent>, neg0: bool, now: int,
                   todo: set<Item>, removed: set<Item>, components: seq<MapComponent>,
                   timers: map<Item, int>, negativeNext: bool, rest: seq<Roll>, spawned: seq<Item>, it: Item)
    requires Sweeping(timers0, cs0, neg0, now, todo, removed, components, timers, negativeNext, rest, spawned)
    requires it in todo
    ensures it !in spawned && it in timers && timers[it] == timers0[it]
  {
  }

  /** Visiting an entry that has not expired changes nothing else. */
  lemma SweepKeep(timers0: map<Item, int>, cs0: seq<MapComponent>, neg0: bool, now: int,
                  todo: set<Item>, removed: set<Item>, components: seq<MapComponent>,
                  timers: map<Item, int>, negativeNext: bool, rest: seq<Roll>, spawned: seq<Item>, it: Item)
    requires Sweeping(timers0, cs0, neg0, now, todo, removed, components, timers, negativeNext, rest, spawned)
    requires it in todo && now - timers0[it] <= ItemLifetime
    ensures Sweeping(timers0, cs0, neg0, now, todo - {it}, removed, components, timers, negativeNext, rest, spawned)
  {
  }

  /**
   * Visiting an expired entry: it leaves the list and the timers, and the replacement spawned
   * for it (when the draws did not run out) joins the end of the list and the timers.
   */
  lemma SweepExpire(timers0: map<Item, int>, cs0: seq<MapComponent>, neg0: bool, now: int,
                    todo: set<Item>, removed: set<Item>, components: seq<MapComponent>,
                    timers: map<Item, int>, negativeNext: bool, rest: seq<Roll>, spawned: seq<Item>, it: Item,
                    components': seq<MapComponent>, timers': map<Item, int>, negativeNext': bool,
                    rest': seq<Roll>, added: Option<Item>)
    requires Sweeping(timers0, cs0, neg0, now, todo, removed, components, timers, negativeNext, rest, spawned)
    requires it in todo && now - timers0[it] > ItemLifetime
    requires it !in spawned
    requires added.Some? ==> added.value !in timers0 && added.value !in timers
    requires components' == Without(components, {it}) + Parts(Listed(added))
    requires timers' == (timers - {it}) + SpawnTimes(Listed(added), now)
    requires negativeNext' == (negativeNext != added.Some?)
    requires added.Some? ==>
               IsValidPosition(added.value.x, added.value.y) && (added.value.score < 0 <==> negativeNext)
    requires added.Some? ==> rest != []
    requires added.None? ==> rest' == []
    ensures Sweeping(timers0, cs0, neg0, now, todo - {it}, removed + {it}, components', timers', negativeNext', rest',
                     spawned + Listed(added))
  {
    ExpireListStep(cs0, removed, spawned, it, Listed(added));
    TimersStep(timers0, removed, spawned, it, Listed(added), now);
    assert |removed + {it}| == |removed| + 1;
    AlternatingAppend(spawned, neg0, added, negativeNext);
    DistinctAppend(spawned, timers0, timers, added, now);
  }

  /** Appending a replacement that is neither an original entry nor tracked yet keeps the replacements distinct and new. */
  lemma DistinctAppend(spawned: seq<Item>, timers0: map<Item, int>, timers: map<Item, int>, added: Option<Item>, now: int)
    requires forall i :: 0 <= i < |spawned| ==> spawned[i] !in timers0
    requires forall i, j :: 0 <= i < j < |spawned| ==> spawned[i] != spawned[j]
    requires SpawnTimes(spawned, now).Keys <= timers.Keys
    requires added.Some? ==> added.value !in timers0 && added.value !in timers
    ensures forall i :: 0 <= i < |spawned + Listed(added)| ==> (spawned + Listed(added))[i] !in timers0
    ensures forall i, j :: 0 <= i < j < |spawned + Listed(added)| ==>
              (spawned + Listed(added))[i] != (spawned + Listed(added))[j]
  {
    var n := |spawned|;
    var s' := spawned + Listed(added);
    if added.Some? {
      assert s'[n] == added.value;
      forall i | 0 <= i < n ensures s'[i] != s'[n] {
        assert s'[i] == spawned[i] && spawned[i] in SpawnTimes(spawned, now);
      }
    } else {
      assert s' == spawned;
    }
  }

  /** One expiry step on the component list: `it` leaves, the new replacements join the end. */
  lemma ExpireListStep(cs0: seq<MapComponent>, removed: set<Item>, spawned: seq<Item>, it: Item, added: seq<Item>)
    requires it !in spawned
    ensures Without(Without(cs0, removed) + Parts(spawned), {it}) + Parts(added) ==
            Without(cs0, removed + {it}) + Parts(spawned + added)
  {
    ExpireStep(cs0, removed, spawned, it);
    PartsConcat(spawned, added);
    var kept := Without(cs0, removed + {it});
    assert (kept + Parts(spawned)) + Parts(added) == kept + (Parts(spawned) + Parts(added));
  }

  /** Appending a replacement of the expected sign keeps the signs alternating. */
  lemma AlternatingAppend(spawned: seq<Item>, neg0: bool, added: Option<Item>, negativeNext: bool)
    requires forall i :: 0 <= i < |spawned| ==> (spawned[i].score < 0 <==> (neg0 != (i % 2 == 1)))
    requires negativeNext == (neg0 != (|spawned| % 2 == 1))
    requires added.Some? ==> (added.value.score < 0 <==> negativeNext)
    ensures forall i :: 0 <= i < |spawned + Listed(added)| ==>
              ((spawned + Listed(added))[i].score < 0 <==> (neg0 != (i % 2 == 1)))
    ensures (negativeNext != added.Some?) == (neg0 != (|spawned + Listed(added)| % 2 == 1))
  {
    var n := |spawned|;
    var s' := spawned + Listed(added);
    if added.Some? {
      assert s'[n] == added.value;
      assert (n + 1) % 2 == 1 <==> !(n % 2 == 1);
    } else {
      assert s' == spawned;
    }
  }

  /**
   * Once every entry is visited, exactly the expired items were removed, and the replacements
   * are distinct new items on playable cells, one per removal unless the draws ran out, whose
   * signs alternate from `neg0` on.
   */
  lemma SweepDone(timers0: map<Item, int>, cs0: seq<MapComponent>, neg0: bool, now: int,
                  removed: set<Item>, components: seq<MapComponent>,
                  timers: map<Item, int>, negativeNext: bool, rest: seq<Roll>, spawned: seq<Item>)
    requires Sweeping(timers0, cs0, neg0, now, {}, removed, components, timers, negativeNext, rest, spawned)
    ensures removed == Expired(timers0, now)
    ensures components == Without(cs0, Expired(timers0, now)) + Parts(spawned)
    ensures timers == Surviving(timers0, now) + SpawnTimes(spawned, now)
    ensures |spawned| <= |Expired(timers0, now)| && (rest != [] ==> |spawned| == |Expired(timers0, now)|)
    ensures forall i :: 0 <= i < |spawned| ==> spawned[i] !in timers0 && IsValidPosition(spawned[i].x, spawned[i].y)
    ensures forall i, j :: 0 <= i < j < |spawned| ==> spawned[i] != spawned[j]
    ensures forall i :: 0 <= i < |spawned| ==> (spawned[i].score < 0 <==> (neg0 != (i % 2 == 1)))
    ensures negativeNext == (neg0 != (|spawned| % 2 == 1))
  {
    assert Drop(timers0, removed) == Surviving(timers0, now);
  }

  // ---------------------------------------------------------------- collision outcome

  /**
   * What checkItemCollision does at cell (x, y): every item there leaves the list, the score
   * grows by their scores, recentScoreGained becomes the last one's score, the result says
   * whether any was taken, and then (only if one was) spawnNewItem runs on the remaining list.
   */
  ghost predicate CollisionOutcome(active: bool, before: Tracking, score: int, recent: int, x: int, y: int,
                                   rolls: seq<Roll>, now: int, after: Tracking, score': int, recent': int,
                                   collected: bool, rest: seq<Roll>, spawned: Option<Item>)
  {
    var taken := ItemsAt(before.components, x, y);
    (collected <==> taken != []) &&
    score' == score + ScoreSum(taken) &&
    recent' == (if taken == [] then recent else Last(taken).score) &&
    SpawnOutcome(active && collected, Tracking(WithoutItemsAt(before.components, x, y), before.timers, before.negativeNext),
                 rolls, now, after, rest, spawned)
  }

  /**
   * A collision takes an item iff one is on the cell; when none is, nothing changes at all.
   * No creation time is ever dropped.
   */
  lemma {:induction false} CollisionDetects(active: bool, before: Tracking, score: int, recent: int, x: int, y: int,
                                            rolls: seq<Roll>, now: int, after: Tracking, score': int, recent': int,
                                            collected: bool, rest: seq<Roll>, spawned: Option<Item>)
    requires CollisionOutcome(active, before, score, recent, x, y, rolls, now, after, score', recent', collected, rest, spawned)
    ensures collected <==> exists c :: c in before.components && c.ItemPart? && c.At(x, y)
    ensures before.timers.Keys <= after.timers.Keys
    ensures !collected ==> score' == score && recent' == recent && after == before && rest == rolls && spawned == None
  {
    var cs := before.components;
    CollectPartition(cs, x, y);
    var taken := ItemsAt(cs, x, y);
    if taken != [] {
      var c := ItemPart(taken[0]);
      assert Parts(taken)[0] == c;
      assert c in multiset(Parts(taken));
      assert c in multiset(cs);
      assert c in cs && c.At(x, y);
    }
    if exists c :: c in cs && c.ItemPart? && c.At(x, y) {
      var c :| c in cs && c.ItemPart? && c.At(x, y);
      if ItemsAt(cs, x, y) == [] {
        assert false;
      }
    }
  }

  /**
   * After a collision every wall is still there, and the only item that can stand on the cell is
   * the replacement the collision spawned.
   */
  lemma {:induction false} CollisionClearsCell(active: bool, before: Tracking, score: int, recent: int, x: int, y: int,
                                               rolls: seq<Roll>, now: int, after: Tracking, score': int, recent': int,
                                               collected: bool, rest: seq<Roll>, spawned: Option<Item>)
    requires CollisionOutcome(active, before, score, recent, x, y, rolls, now, after, score', recent', collected, rest, spawned)
    ensures forall c :: c in before.components && c.WallPart? ==> c in after.components
    ensures forall c :: c in after.components && c.ItemPart? && c.At(x, y) ==> spawned == Some(c.item)
  {
    var cs := before.components;
    var kept := WithoutItemsAt(cs, x, y);
    CollectPartition(cs, x, y);
    SpawnOnEmptyCell(active && collected, Tracking(kept, before.timers, before.negativeNext), rolls, now, after, rest, spawned);
    assert after.components == kept || (spawned.Some? && after.components == kept + [ItemPart(spawned.value)]);
    forall c | c in after.components && c.ItemPart? && c.At(x, y) ensures spawned == Some(c.item) {
      assert c !in kept;
    }
  }

  /** A collision keeps one component per cell. */
  lemma {:induction false} CollisionKeepsOnePerCell(active: bool, before: Tracking, score: int, recent: int, x: int, y: int,
                                                    rolls: seq<Roll>, now: int, after: Tracking, score': int, recent': int,
                                                    collected: bool, rest: seq<Roll>, spawned: Option<Item>)
    requires CollisionOutcome(active, before, score, recent, x, y, rolls, now, after, score', recent', collected, rest, spawned)
    requires OnePerCell(before.components)
    ensures OnePerCell(after.components)
  {
    var kept := WithoutItemsAt(before.components, x, y);
    OnePerCellWithoutItemsAt(before.components, x, y);
    SpawnKeepsOnePerCell(active && collected, Tracking(kept, before.timers, before.negativeNext), rolls, now, after, rest, spawned);
  }

  // ---------------------------------------------------------------- rendering

  /** getWorldState's cell: the player's symbol on the player's cell when in bounds, else the components over blank. */
  function WorldCell(cs: seq<MapComponent>, px: int, py: int, playerSymbol: Symbol, x: int, y: int): Symbol
  {
    if InGrid(px, py) && x == px && y == py then playerSymbol else RenderedCell(cs, x, y, Blank)
  }

  /**
   * What getWorldState shows on a cell: the player's symbol on the player's cell (when the player
   * is in bounds), blank where there is no component, otherwise the symbol of the last component
   * on the cell.
   */
  lemma {:induction false} WorldCellShows(cs: seq<MapComponent>, px: int, py: int, playerSymbol: Symbol, x: int, y: int)
    ensures InGrid(px, py) && x == px && y == py ==> WorldCell(cs, px, py, playerSymbol, x, y) == playerSymbol
    ensures !(InGrid(px, py) && x == px && y == py) && NoneAt(cs, x, y) ==> WorldCell(cs, px, py, playerSymbol, x, y) == Blank
    ensures !(InGrid(px, py) && x == px && y == py) ==>
              forall i :: TopAt(cs, i, x, y) ==> WorldCell(cs, px, py, playerSymbol, x, y) == cs[i].Symbol()
  {
    RenderedCellIsLast(cs, x, y, Blank);
  }

  // ---------------------------------------------------------------- persistence

  /** The saved snapshot: player position, score, time left and the grid of symbols (cells and the grid may be null). */
  datatype GameState = GameState(playerX: int, playerY: int, score: int,
                                 grid: Option<seq<seq<Option<Symbol>>>>, timeRemaining: int)

  /** A saved cell that loadGame turns into a wall: non-null and not blank. */
  predicate Occupied(cell: Option<Symbol>) {
    cell.Some? && cell.value != Blank
  }

  /** The components referring to the given walls, in order. */
  function WallParts(ws: seq<Wall>): seq<MapComponent> {
    seq(|ws|, i requires 0 <= i < |ws| => WallPart(ws[i]))
  }

  /**
   * The walls loadGame appends when it scans the saved grid row by row from (x, y) on, with
   * `w` the length of the first row. A row shorter than `w` raises an index exception, which
   * ends the scan.
   */
  function RestoredWalls(g: seq<seq<Option<Symbol>>>, w: nat, y: nat, x: nat): seq<Wall>
    requires y <= |g| && x <= w
    decreases |g| - y, w - x
  {
    if y == |g| then []
    else if x == w then RestoredWalls(g, w, y + 1, 0)
    else if x >= |g[y]| then []
    else if Occupied(g[y][x]) then [Wall(x, y)] + RestoredWalls(g, w, y, x + 1)
    else RestoredWalls(g, w, y, x + 1)
  }

  /** One cell of the scan: an occupied cell adds its wall to the walls restored so far, any other cell adds nothing. */
  lemma RestoreCellStep(g: seq<seq<Option<Symbol>>>, w: nat, y: nat, x: nat, walls: seq<Wall>, target: seq<Wall>)
    requires y < |g| && x < w && x < |g[y]|
    requires walls + RestoredWalls(g, w, y, x) == target
    ensures Occupied(g[y][x]) ==> (walls + [Wall(x, y)]) + RestoredWalls(g, w, y, x + 1) == target
    ensures !Occupied(g[y][x]) ==> walls + RestoredWalls(g, w, y, x + 1) == target
  {
    var next := RestoredWalls(g, w, y, x + 1);
    if Occupied(g[y][x]) {
      assert RestoredWalls(g, w, y, x) == [Wall(x, y)] + next;
      AppendAssociative(walls, [Wall(x, y)], next);
    }
  }

  lemma AppendAssociative<T>(a: seq<T>, b: seq<T>, c: seq<T>)
    ensures a + (b + c) == (a + b) + c
  {
  }

  lemma WallPartsAppend(ws: seq<Wall>, w: Wall)
    ensures WallParts(ws + [w]) == WallParts(ws) + [WallPart(w)]
  {
  }

  /** Every wall of the whole scan of a saved grid. */
  function RestoreGrid(g: seq<seq<Option<Symbol>>>): seq<Wall> {
    if g == [] then [] else RestoredWalls(g, |g[0]|, 0, 0)
  }

  predicate Rectangular(g: seq<seq<Option<Symbol>>>) {
    forall y :: 0 <= y < |g| ==> |g[y]| == |g[0]|
  }

  /** Row-major order of cells. */
  predicate Before(ay: int, ax: int, cy: int, cx: int) {
    ay < cy || (ay == cy && ax < cx)
  }

  /** Every wall of the scan from (x, y) is on an occupied saved cell at or after (x, y). */
  lemma {:induction false} RestoredWallsSound(g: seq<seq<Option<Symbol>>>, w: nat, y: nat, x: nat)
    requires y <= |g| && x <= w
    ensures forall wl :: wl in RestoredWalls(g, w, y, x) ==>
              0 <= wl.y < |g| && 0 <= wl.x < |g[wl.y]| && wl.x < w && Occupied(g[wl.y][wl.x]) &&
              !Before(wl.y, wl.x, y, x)
    decreases |g| - y, w - x
  {
    if y == |g| {
    } else if x == w {
      RestoredWallsSound(g, w, y + 1, 0);
    } else if x >= |g[y]| {
    } else {
      RestoredWallsSound(g, w, y, x + 1);
    }
  }

  /** The scan lists its walls in strictly increasing row-major order. */
  lemma {:induction false} RestoredWallsSorted(g: seq<seq<Option<Symbol>>>, w: nat, y: nat, x: nat)
    requires y <= |g| && x <= w
    ensures forall i, j :: 0 <= i < j < |RestoredWalls(g, w, y, x)| ==>
              Before(RestoredWalls(g, w, y, x)[i].y, RestoredWalls(g, w, y, x)[i].x,
                     RestoredWalls(g, w, y, x)[j].y, RestoredWalls(g, w, y, x)[j].x)
    decreases |g| - y, w - x
  {
    if y == |g| {
    } else if x == w {
      RestoredWallsSorted(g, w, y + 1, 0);
    } else if x >= |g[y]| {
    } else {
      var rest := RestoredWalls(g, w, y, x + 1);
      RestoredWallsSorted(g, w, y, x + 1);
      if Occupied(g[y][x]) {
        RestoredWallsSound(g, w, y, x + 1);
        var r := [Wall(x, y)] + rest;
        forall i, j | 0 <= i < j < |r| ensures Before(r[i].y, r[i].x, r[j].y, r[j].x) {
          if i == 0 {
            assert r[j] == rest[j - 1] && rest[j - 1] in rest;
          } else {
            assert r[i] == rest[i - 1] && r[j] == rest[j - 1];
          }
        }
      }
    }
  }

  /** On a grid whose rows all have length w, the scan from (x, y) finds every occupied cell from (x, y) on. */
  lemma {:induction false} RestoredWallsComplete(g: seq<seq<Option<Symbol>>>, w: nat, y: nat, x: nat)
    requires y <= |g| && x <= w
    requires forall r :: 0 <= r < |g| ==> |g[r]| == w
    ensures forall cy, cx :: 0 <= cy < |g| && 0 <= cx < w && Occupied(g[cy][cx]) && !Before(cy, cx, y, x) ==>
              Wall(cx, cy) in RestoredWalls(g, w, y, x)
    decreases |g| - y, w - x
  {
    if y == |g| {
    } else if x == w {
      RestoredWallsComplete(g, w, y + 1, 0);
    } else {
      RestoredWallsComplete(g, w, y, x + 1);
    }
  }

  /**
   * Restoring a rectangular saved grid gives exactly one wall per non-null, non-blank cell and
   * nothing else.
   */
  lemma {:induction false} RestoreGridExact(g: seq<seq<Option<Symbol>>>)
    requires Rectangular(g)
    ensures forall cx, cy :: Wall(cx, cy) in RestoreGrid(g) <==>
              0 <= cy < |g| && 0 <= cx < |g[cy]| && Occupied(g[cy][cx])
    ensures forall i, j :: 0 <= i < j < |RestoreGrid(g)| ==> RestoreGrid(g)[i] != RestoreGrid(g)[j]
  {
    if g != [] {
      RestoredWallsSound(g, |g[0]|, 0, 0);
      RestoredWallsSorted(g, |g[0]|, 0, 0);
      RestoredWallsComplete(g, |g[0]|, 0, 0);
    }
  }

  /** The grid saveGame stores: getWorldState's 10 x 24 cells, none of them null. */
  predicate IsSavedGrid(g: seq<seq<Option<Symbol>>>, cs: seq<MapComponent>, px: int, py: int, playerSymbol: Symbol)
  {
    |g| == Height &&
    forall y :: 0 <= y < Height ==>
      |g[y]| == Width && forall x :: 0 <= x < Width ==> g[y][x] == Some(WorldCell(cs, px, py, playerSymbol, x, y))
  }

  /**
   * Saving and then restoring is lossy: the restored list holds one wall on every cell the saved
   * grid showed as non-blank, whatever stood there, and the player's own cell becomes a wall.
   */
  lemma {:induction false} SaveThenRestore(g: seq<seq<Option<Symbol>>>, cs: seq<MapComponent>, px: int, py: int,
                                           playerSymbol: Symbol)
    requires IsSavedGrid(g, cs, px, py, playerSymbol)
    ensures forall cx, cy :: Wall(cx, cy) in RestoreGrid(g) <==>
              InGrid(cx, cy) && WorldCell(cs, px, py, playerSymbol, cx, cy) != Blank
    ensures InGrid(px, py) && playerSymbol != Blank ==> Wall(px, py) in RestoreGrid(g)
  {
    assert Rectangular(g);
    RestoreGridExact(g);
  }
}
