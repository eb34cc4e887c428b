/** The map components of package `model`: the collectible Item and the ground Wall. */
module Model {
  import opened Common

  /** The brick a wall always draws. */
  const BrickSymbol: Symbol := "\U{1F9F1}"

  /** A wall: its position is fixed at construction and its symbol is always the brick. */
  datatype Wall = Wall(x: int, y: int) {

    function Symbol(): (s: Symbol)
      ensures s == BrickSymbol
    {
      BrickSymbol
    }

    /** Draws the brick into the caller's grid (rows are y, columns are x); no bounds check is made. */
    method Render(grid: array2<Symbol>)
      requires 0 <= y < grid.Length0 && 0 <= x < grid.Length1
      modifies grid
      ensures grid[y, x] == Symbol()
      ensures forall r, c :: 0 <= r < grid.Length0 && 0 <= c < grid.Length1 && (r, c) != (y, x) ==>
                grid[r, c] == old(grid[r, c])
    {
      grid[y, x] := BrickSymbol;
    }
  }

  /**
   * A collectible item: a position, an emoji, a signed score and a visibility flag. The position
   * is fixed once the item exists; the position setters return a moved copy instead.
   */
  class Item {
    const x: int
    const y: int
    const emoji: Symbol
    var visible: bool
    const score: int

    constructor (x: int, y: int, emoji: Symbol, score: int)
      ensures this.x == x && this.y == y && this.emoji == emoji && this.score == score
      ensures visible
    {
      this.x, this.y := x, y;
      this.emoji, this.score := emoji, score;
      visible := true;
    }

    /** The three-argument constructor kept for compatibility: the score defaults to 1. */
    constructor WithDefaultScore(x: int, y: int, emoji: Symbol)
      ensures this.x == x && this.y == y && this.emoji == emoji && score == 1
      ensures visible
    {
      this.x, this.y := x, y;
      this.emoji, score := emoji, 1;
      visible := true;
    }

    /** The symbol the item shows on the map, which is its emoji. */
    function Symbol(): (s: Symbol)
      ensures s == emoji
    {
      emoji
    }

    method SetVisible(v: bool)
      modifies this`visible
      ensures visible == v
    {
      visible := v;
    }

    /** setPosition, on values: an item like this one (emoji, score, visibility) at (x, y). */
    method WithPosition(x: int, y: int) returns (moved: Item)
      ensures fresh(moved)
      ensures moved.x == x && moved.y == y
      ensures moved.emoji == emoji && moved.score == score && moved.visible == visible
    {
      moved := new Item(x, y, emoji, score);
      moved.visible := visible;
    }

    /** setX, on values: an item like this one at column x, same row. */
    method WithX(x: int) returns (moved: Item)
      ensures fresh(moved)
      ensures moved.x == x && moved.y == y
      ensures moved.emoji == emoji && moved.score == score && moved.visible == visible
    {
      moved := WithPosition(x, y);
    }

    /** setY, on values: an item like this one at row y, same column. */
    method WithY(y: int) returns (moved: Item)
      ensures fresh(moved)
      ensures moved.x == x && moved.y == y
      ensures moved.emoji == emoji && moved.score == score && moved.visible == visible
    {
      moved := WithPosition(x, y);
    }

    /** Draws the emoji into the caller's grid when visible; no bounds check is made. */
    method Render(grid: array2<Symbol>)
      requires 0 <= y < grid.Length0 && 0 <= x < grid.Length1
      modifies grid
      ensures grid[y, x] == if visible then emoji else old(grid[y, x])
      ensures forall r, c :: 0 <= r < grid.Length0 && 0 <= c < grid.Length1 && (r, c) != (y, x) ==>
                grid[r, c] == old(grid[r, c])
    {
      if visible {
        grid[y, x] := emoji;
      }
    }
  }
}
