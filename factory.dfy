/**
 * The two item factories: each is a fixed table of (emoji, score) pairs, and creating an item
 * looks up one row by a random index. The index is a parameter here.
 */
module Factory {
  import opened Common
  import opened Model

  /** Both tables have this many rows, so every index in [0, TableSize) is valid. */
  const TableSize := 5

  const PositiveSymbols: seq<Symbol> :=
    ["\U{1F642}", "\U{1F604}", "\U{1F601}", "\U{1F60D}", "\U{1F911}"]
  const PositiveScores: seq<int> := [5, 10, 20, 25, 50]

  const NegativeSymbols: seq<Symbol> :=
    ["\U{1F4A9}", "\U{1F47A}", "\U{1F47D}", "\U{1F47B}", "\U{2620}\U{FE0F}"]
  const NegativeScores: seq<int> := [-5, -15, -20, -25, -50]

  /** One row of a factory table. */
  datatype Entry = Entry(symbol: Symbol, score: int)

  /** Row `index` of the positive table: the symbol and the score share the index. */
  function PositiveEntry(index: int): (e: Entry)
    requires 0 <= index < TableSize
    ensures e.score in {5, 10, 20, 25, 50}
    ensures e.score > 0
    ensures e.symbol != Blank
  {
    Entry(PositiveSymbols[index], PositiveScores[index])
  }

  /** Row `index` of the negative table: the symbol and the score share the index. */
  function NegativeEntry(index: int): (e: Entry)
    requires 0 <= index < TableSize
    ensures e.score in {-5, -15, -20, -25, -50}
    ensures e.score < 0
    ensures e.symbol != Blank
  {
    Entry(NegativeSymbols[index], NegativeScores[index])
  }

  /** ItemFactory.createRandomItem with the random index made a parameter. */
  method CreateRandomItem(x: int, y: int, index: int) returns (item: Item)
    requires 0 <= index < TableSize
    ensures fresh(item)
    ensures item.x == x && item.y == y && item.visible
    ensures Entry(item.emoji, item.score) == PositiveEntry(index)
  {
    var e := PositiveEntry(index);
    item := new Item(x, y, e.symbol, e.score);
  }

  /** NegativeItemFactory.createRandomNegativeItem with the random index made a parameter. */
  method CreateRandomNegativeItem(x: int, y: int, index: int) returns (item: Item)
    requires 0 <= index < TableSize
    ensures fresh(item)
    ensures item.x == x && item.y == y && item.visible
    ensures Entry(item.emoji, item.score) == NegativeEntry(index)
  {
    var e := NegativeEntry(index);
    item := new Item(x, y, e.symbol, e.score);
  }
}
