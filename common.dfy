/** Shared vocabulary of the model: optional values and the opaque symbols drawn on the grid. */
module Common {

  datatype Option<+T> = None | Some(value: T)

  /** A symbol is the text a component or the player draws in one grid cell (an emoji in the game). */
  type Symbol = string

  /** The text of a cell that holds nothing. */
  const Blank: Symbol := " "
}
