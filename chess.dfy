/**
  * The shared vocabulary of the chess game: players, pieces, the kinds of moves the engine reports,
  * and the arithmetic that turns a board cell (0..63) into a row and a column and back.
  *
  * Cells are numbered row by row: row 0 is White's back rank, column 0 is the left-hand file.
  */
module Chess {

  datatype Option<T> = None | Some(value: T)

  datatype Player = White | Black

  /** The six piece types; the rook is spelled as the program spells it. */
  datatype PieceType = King | Queen | Bishop | Knight | Rock | Pawn

  /** A piece is a value: its type and its owner. */
  datatype Piece = Piece(pieceType: PieceType, player: Player)

  /** The kind of a move, as the engine reports it; `Regular` stands for every other kind. */
  datatype MoveType = Regular | Capture | EnPassent | Promotion

  /** One destination offered for the selected piece. */
  datatype MoveOption = MoveOption(movePosition: int, moveType: MoveType)

  /** Number of rows and of columns. */
  const BoardSize: int := 8

  /** Number of cells on the board. */
  const TileCount: int := BoardSize * BoardSize

  predicate IsCell(cell: int) {
    0 <= cell < TileCount
  }

  function Opponent(player: Player): (other: Player)
    ensures other != player
  {
    if player == White then Black else White
  }

  /** The row a player's pawns advance towards: White up the board, Black down. */
  function Forward(player: Player): (direction: int)
    ensures direction == 1 || direction == -1
    ensures (direction == 1) == (player == White)
  {
    if player == White then 1 else -1
  }

  function Row(cell: int): (row: int)
    requires IsCell(cell)
    ensures 0 <= row < BoardSize
    ensures row * BoardSize <= cell < row * BoardSize + BoardSize
  {
    cell / BoardSize
  }

  function Column(cell: int): (column: int)
    requires IsCell(cell)
    ensures 0 <= column < BoardSize
    ensures Row(cell) * BoardSize + column == cell
  {
    cell % BoardSize
  }

  /** The cell at a row and a column: the inverse of Row and Column. */
  function Cell(row: int, column: int): (cell: int)
    requires 0 <= row < BoardSize && 0 <= column < BoardSize
    ensures IsCell(cell)
    ensures Row(cell) == row && Column(cell) == column
  {
    row * BoardSize + column
  }

  /** Row and Column lose nothing: a cell is determined by its row and its column. */
  lemma CellRoundTrip(cell: int)
    requires IsCell(cell)
    ensures Cell(Row(cell), Column(cell)) == cell
  {
  }
}
