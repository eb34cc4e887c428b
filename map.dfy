/**
 * Package `map`: the MapComponent variant type, the ItemGroup that holds the world's component
 * list, its index iterator, and the stand-alone SingleItem.
 */
module Map {
  import opened Common
  import opened Model

  /**
   * The MapComponent interface as a tagged variant. A wall is a value; an item is a reference to
   * an Item object, so two components are equal exactly when they are the same wall position or
   * the same Item object.
   */
  datatype MapComponent = WallPart(wall: Wall) | ItemPart(item: Item) {

    function X(): int {
      if WallPart? then wall.x else item.x
    }

    function Y(): int {
      if WallPart? then wall.y else item.y
    }

    function Symbol(): Symbol {
      if WallPart? then wall.Symbol() else item.Symbol()
    }

    predicate At(x: int, y: int) {
      X() == x && Y() == y
    }
  }

  function Init<T>(s: seq<T>): seq<T>
    requires s != []
  {
    s[..|s| - 1]
  }

  function Last<T>(s: seq<T>): T
    requires s != []
  {
    s[|s| - 1]
  }

  /** ItemGroup.isCellEmpty: no component of the list is on cell (x, y). */
  predicate NoneAt(cs: seq<MapComponent>, x: int, y: int) {
    forall i :: 0 <= i < |cs| ==> !cs[i].At(x, y)
  }

  /** List.remove(Object): the list without its first element equal to c. */
  function RemoveFirst(cs: seq<MapComponent>, c: MapComponent): seq<MapComponent> {
    if cs == [] then []
    else if cs[0] == c then cs[1..]
    else [cs[0]] + RemoveFirst(cs[1..], c)
  }

  /** When c first occurs at index k, RemoveFirst deletes exactly that element. */
  lemma {:induction false} RemoveFirstAt(cs: seq<MapComponent>, c: MapComponent, k: nat)
    requires k < |cs| && cs[k] == c
    requires forall j :: 0 <= j < k ==> cs[j] != c
    ensures RemoveFirst(cs, c) == cs[..k] + cs[k + 1..]
  {
    if k > 0 {
      RemoveFirstAt(cs[1..], c, k - 1);
      assert cs[1..][..k - 1] == cs[1..k];
      assert cs[1..][k..] == cs[k + 1..];
      assert [cs[0]] + cs[1..k] == cs[..k];
    }
  }

  /** Removing a component that is not in the list leaves the list as it was. */
  lemma {:induction false} RemoveFirstAbsent(cs: seq<MapComponent>, c: MapComponent)
    requires c !in cs
    ensures RemoveFirst(cs, c) == cs
  {
    if cs != [] {
      assert cs[1..] + [] == cs[1..];
      RemoveFirstAbsent(cs[1..], c);
      assert [cs[0]] + cs[1..] == cs;
    }
  }

  /**
   * What a grid cell shows after the components are drawn in list order over `base`: the symbol
   * of the last component on (x, y), or `base` when none is there.
   */
  function RenderedCell(cs: seq<MapComponent>, x: int, y: int, base: Symbol): Symbol {
    if cs == [] then base
    else if Last(cs).At(x, y) then Last(cs).Symbol() else RenderedCell(Init(cs), x, y, base)
  }

  /** cs[i] is on (x, y) and no later component is: the one drawn last there. */
  predicate TopAt(cs: seq<MapComponent>, i: int, x: int, y: int) {
    0 <= i < |cs| && cs[i].At(x, y) && forall j :: i < j < |cs| ==> !cs[j].At(x, y)
  }

  /**
   * Rendering order: the cell shows the symbol of the component with the largest index on it,
   * and keeps `base` exactly when no component is on it.
   */
  lemma {:induction false} RenderedCellIsLast(cs: seq<MapComponent>, x: int, y: int, base: Symbol)
    ensures NoneAt(cs, x, y) ==> RenderedCell(cs, x, y, base) == base
    ensures forall i :: TopAt(cs, i, x, y) ==> RenderedCell(cs, x, y, base) == cs[i].Symbol()
  {
    if cs != [] {
      var init := Init(cs);
      RenderedCellIsLast(init, x, y, base);
      if NoneAt(cs, x, y) {
        assert !Last(cs).At(x, y);
        assert NoneAt(init, x, y);
      }
      forall i | TopAt(cs, i, x, y) ensures RenderedCell(cs, x, y, base) == cs[i].Symbol() {
        if i < |init| {
          assert !Last(cs).At(x, y);
          forall j | i < j < |init| ensures !init[j].At(x, y) {
            assert init[j] == cs[j];
          }
          assert init[i] == cs[i] && TopAt(init, i, x, y);
        }
      }
    }
  }

  /** Package map's ItemGroup: a list of map components, drawn in list order. */
  class ItemGroup {
    var components: seq<MapComponent>

    constructor ()
      ensures components == []
    {
      components := [];
    }

    /** Appends the component: earlier elements stay, the list grows by one. */
    method Add(c: MapComponent)
      modifies this
      ensures components == old(components) + [c]
    {
      components := components + [c];
    }

    /** Deletes the first element equal to c, if any. */
    method Remove(c: MapComponent)
      modifies this
      ensures components == RemoveFirst(old(components), c)
    {
      components := RemoveFirst(components, c);
    }

    /** True iff no component of the group is on cell (x, y). */
    predicate IsCellEmpty(x: int, y: int)
      reads this
      ensures IsCellEmpty(x, y) <==> forall c :: c in components ==> !c.At(x, y)
    {
      NoneAt(components, x, y)
    }

    /**
     * Writes each component's symbol into grid[y, x] in list order, skipping components outside
     * the grid; every other cell keeps its value.
     */
    method Render(grid: array2<Symbol>)
      modifies grid
      ensures forall r, c :: 0 <= r < grid.Length0 && 0 <= c < grid.Length1 ==>
                grid[r, c] == RenderedCell(components, c, r, old(grid[r, c]))
    {
      var i := 0;
      while i < |components|
        invariant 0 <= i <= |components|
        invariant forall r, c :: 0 <= r < grid.Length0 && 0 <= c < grid.Length1 ==>
                    grid[r, c] == RenderedCell(components[..i], c, r, old(grid[r, c]))
      {
        var comp := components[i];
        var x, y := comp.X(), comp.Y();
        if 0 <= x < grid.Length1 && 0 <= y < grid.Length0 {
          grid[y, x] := comp.Symbol();
        }
        assert Init(components[..i + 1]) == components[..i];
        assert Last(components[..i + 1]) == comp;
        i := i + 1;
      }
      assert components[..i] == components;
    }
  }

  /** Result of ItemGroupIterator.next: the component, or the NoSuchElementException. */
  datatype NextResult = Element(component: MapComponent) | NoSuchElement

  /** Package map's ItemGroupIterator: an index into a component list, starting at 0. */
  class ItemGroupIterator {
    const components: seq<MapComponent>
    var position: int

    ghost predicate Valid()
      reads this
    {
      0 <= position <= |components|
    }

    /** The components already returned by Next, in order. */
    ghost function Yielded(): seq<MapComponent>
      reads this
      requires Valid()
    {
      components[..position]
    }

    constructor (components: seq<MapComponent>)
      ensures Valid() && this.components == components && position == 0
      ensures Yielded() == []
    {
      this.components := components;
      position := 0;
    }

    /** Some component is still to be returned. */
    predicate HasNext()
      reads this
      ensures Valid() ==> (HasNext() <==> Yielded() != components)
    {
      position < |components|
    }

    /**
     * Returns the component at the current position and advances by one; when exhausted, reports
     * NoSuchElement and does not advance.
     */
    method Next() returns (r: NextResult)
      requires Valid()
      modifies this
      ensures Valid()
      ensures old(HasNext()) ==> r == Element(components[old(position)]) && position == old(position) + 1
      ensures old(HasNext()) ==> Yielded() == old(Yielded()) + [r.component]
      ensures !old(HasNext()) ==> r == NoSuchElement && position == old(position)
      ensures !HasNext() <==> Yielded() == components
    {
      if !HasNext() {
        r := NoSuchElement;
      } else {
        r := Element(components[position]);
        position := position + 1;
        assert components[..position] == components[..position - 1] + [r.component];
      }
    }
  }

  /** Package map's SingleItem: a fixed position and emoji with a mutable visibility flag. */
  class SingleItem {
    const x: int
    const y: int
    const emoji: Symbol
    var visible: bool

    constructor (x: int, y: int, emoji: Symbol)
      ensures this.x == x && this.y == y && this.emoji == emoji && visible
    {
      this.x, this.y, this.emoji := x, y, emoji;
      visible := true;
    }

    function Symbol(): (s: Symbol)
      ensures s == emoji
    {
      emoji
    }

    method SetVisible(v: bool)
      modifies this`visible
      ensures visible == v
    {
      visible := v;
    }

    /** Draws the emoji into the caller's grid when visible; no bounds check is made. */
    method Render(grid: array2<Symbol>)
      requires 0 <= y < grid.Length0 && 0 <= x < grid.Length1
      modifies grid
      ensures grid[y, x] == if visible then emoji else old(grid[y, x])
      ensures forall r, c :: 0 <= r < grid.Length0 && 0 <= c < grid.Length1 && (r, c) != (y, x) ==>
                grid[r, c] == old(grid[r, c])
    {
      if visible {
        grid[y, x] := emoji;
      }
    }
  }
}
