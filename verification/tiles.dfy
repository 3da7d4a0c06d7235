/** Tiles, positions and the fixed square board of the match-3 game,
    with the game configuration constants. */
module Tiles {

  /** Configuration of the game (js/game.js, constructor). */
  const GridSize: nat := 8
  const ColorVariants: nat := 5
  const MinMatchSize: nat := 3
  const MoveLimit: int := 15
  const GoalPercentage: int := 66

  /** A colour is an index into the configured palette: two tiles have the
      same colour name exactly when they have the same index. */
  type Color = c: int | 0 <= c < ColorVariants

  /** One draw of the random source, floor(1000 * u) for u in [0, 1). */
  type Roll = r: int | 0 <= r < 1000

  /** The colour index floor(ColorVariants * u) that a draw u gives:
      floor(5u) is determined by floor(1000u). */
  function RollColor(r: Roll): (c: Color)
    ensures 200 * c <= r < 200 * (c + 1)
  {
    r / 200
  }

  /** A tile record: its colour, the coordinates it is tagged with, whether
      it is special, and the transient `matched` flag used while resolving. */
  datatype Tile = Tile(color: Color, row: int, col: int, special: bool, matched: bool)

  /** A grid coordinate, as in the `{ row, col }` records of the game. */
  datatype Pos = Pos(row: int, col: int)

  /** The board as rows of tiles, row 0 at the top. */
  type Board = seq<seq<Tile>>

  predicate InBounds(row: int, col: int) {
    0 <= row < GridSize && 0 <= col < GridSize
  }

  /** The board has GridSize rows of GridSize tiles. */
  predicate IsGrid(b: Board) {
    |b| == GridSize && forall r :: 0 <= r < |b| ==> |b[r]| == GridSize
  }

  /** Every tile carries the coordinates of the cell that holds it. */
  predicate Tagged(b: Board) {
    IsGrid(b) &&
    forall r, c :: 0 <= r < GridSize && 0 <= c < GridSize ==> b[r][c].row == r && b[r][c].col == c
  }

  /** No tile is flagged as matched. */
  predicate Clean(b: Board)
    requires IsGrid(b)
  {
    forall r, c :: 0 <= r < GridSize && 0 <= c < GridSize ==> !b[r][c].matched
  }

  /** Column `c` read top to bottom. */
  function Column(b: Board, c: int): (s: seq<Tile>)
    requires IsGrid(b) && 0 <= c < GridSize
    ensures |s| == GridSize
  {
    seq(GridSize, r requires 0 <= r < GridSize => b[r][c])
  }

  /** A freshly generated tile, as written at js/game.js:107-113 and 268-274. */
  function FreshTile(r: Roll, row: int, col: int): Tile {
    Tile(RollColor(r), row, col, false, false)
  }
}
