/** Tiles, optional cells and piece layouts shared by every part of the model. */
module Tiles {

  datatype Option<+T> = None | Some(value: T)

  /** A numbered tile and the grid position it records: `x` is the column, `y` the row (row 0 is the bottom). */
  datatype Tile = Tile(number: nat, x: int, y: int)

  /** What the board knows of a cell once tile identity is set aside: the tile's number, if any. */
  type Cell = Option<nat>

  /** A piece's tile matrix: a list of rows, each entry an optional tile carrying its absolute board position. */
  type Layout = seq<seq<Option<Tile>>>

  /** `Tile.move(dx, dy)`: the same tile with its recorded position shifted. */
  function Move(t: Tile, dx: int, dy: int): Tile
  {
    Tile(t.number, t.x + dx, t.y + dy)
  }

  /** The number shown in a cell that holds an optional tile. */
  function Num(o: Option<Tile>): Cell
  {
    match o
    case None => None
    case Some(t) => Some(t.number)
  }
}
