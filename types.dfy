/** Values shared by every part of the game engine: players, cells, boards and
    board coordinates. */
module Types {

  datatype Option<T> = None | Some(value: T)

  /** The two marks, 'X' and 'O'. */
  datatype Player = X | O

  /** The player who moves after `p`: the source's `currentPlayer === 'X' ? 'O' : 'X'`. */
  function Other(p: Player): (q: Player)
    ensures q != p
  {
    if p == X then O else X
  }

  /** A cell holds '' (empty, falsy in the source) or a player's mark. */
  datatype Cell = Empty | Taken(player: Player)

  /** A board is a list of rows; the engine always keeps it square. */
  type Board = seq<seq<Cell>>

  /** A `[row, col]` pair as the source reports it. */
  datatype Coord = Coord(row: int, col: int)

  /** `board` has `size` rows of `size` cells each. */
  predicate IsSquare(board: Board, size: nat)
  {
    |board| == size && forall r :: 0 <= r < size ==> |board[r]| == size
  }

  /** `p` names a cell of `board`. */
  predicate InBoard(board: Board, p: Coord)
  {
    0 <= p.row < |board| && 0 <= p.col < |board[p.row]|
  }

  /** The cell at `p` holds `player`'s mark (a coordinate off the board reads
      as `undefined` in the source, which is never a player). */
  predicate Holds(board: Board, player: Player, p: Coord)
  {
    InBoard(board, p) && board[p.row][p.col] == Taken(player)
  }
}
