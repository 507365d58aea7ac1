/**
 * The propositions of the Unwordle theory: tiles, rows and boards, and the
 * constraints that build_theory adds to the encoding.
 *
 * In the program these are classes whose equality is decided by comparing
 * their printed form; here they are datatypes with structural equality.
 */
module Propositions {

  /** The colour hint a cell of the feedback grid carries. */
  datatype Colour = Green | Yellow | White

  /** "Cell (row, col) holds `letter`, shown in `colour`." */
  datatype Tile = Tile(row: nat, col: nat, colour: Colour, letter: char)

  /** "Row `number` of the board consists of the tiles t0 .. t4, left to right." */
  datatype Row = Row(number: nat, t0: Tile, t1: Tile, t2: Tile, t3: Tile, t4: Tile)

  /** "The board consists of these four rows, top to bottom." */
  datatype Board = Board(row1: Row, row2: Row, row3: Row, row4: Row)

  /** One constraint of the encoding. */
  datatype Constraint =
    | Pos(tile: Tile)                       // the tile proposition must hold
    | Neg(tile: Tile)                       // the tile proposition must not hold
    | RowRule(tiles: seq<Tile>, row: Row)   // tiles[0] & ... & tiles[4] >> row
    | BoardRule(rows: seq<Row>, board: Board) // rows[0] & ... & rows[3] >> board

  /** The word a row spells: the letters of its tiles, left to right. */
  function Spell(x: Row): string
  {
    [x.t0.letter, x.t1.letter, x.t2.letter, x.t3.letter, x.t4.letter]
  }

  /** The premises of the implication logged for a row. */
  function Tiles(x: Row): seq<Tile>
  {
    [x.t0, x.t1, x.t2, x.t3, x.t4]
  }

  /** The premises of the implication logged for a board. */
  function Rows(b: Board): seq<Row>
  {
    [b.row1, b.row2, b.row3, b.row4]
  }
}
