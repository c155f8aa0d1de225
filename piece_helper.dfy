/**
  * Where each piece's picture sits on the sprite sheet: one row per player (White on top), one
  * column per piece type, every sprite 333 by 333 pixels.
  */
module PieceHelper {
  import opened Chess

  datatype Rectangle = Rectangle(x: int, y: int, width: int, height: int)

  const SpriteWidth: int := 333
  const SpriteHeight: int := 333

  /** The piece types from left to right along a row of the sheet. */
  const SheetOrder: seq<PieceType> := [King, Queen, Bishop, Knight, Rock, Pawn]

  /** The sheet is six sprites wide and two sprites high. */
  const SheetWidth: int := |SheetOrder| * SpriteWidth
  const SheetHeight: int := 2 * SpriteHeight

  /**
    * The crop rectangle of a piece. The sheet column is read back from `x` through SheetOrder and
    * the player from `y`, so the rectangle names the piece it was computed for. PieceType is closed,
    * so there is no piece outside the six cases to reject.
    */
  function GetSpritePosition(piece: Piece): (r: Rectangle)
    ensures r.width == SpriteWidth && r.height == SpriteHeight
    ensures 0 <= r.x && r.x + r.width <= SheetWidth
    ensures 0 <= r.y && r.y + r.height <= SheetHeight
    ensures r.x % SpriteWidth == 0 && SheetOrder[r.x / SpriteWidth] == piece.pieceType
    ensures r.y % SpriteHeight == 0 && (r.y == 0 <==> piece.player == White)
  {
    var y := if piece.player == White then 0 else SpriteHeight;
    var x := match piece.pieceType
      case King => 0
      case Queen => SpriteWidth
      case Bishop => 2 * SpriteWidth
      case Knight => 3 * SpriteWidth
      case Rock => 4 * SpriteWidth
      case Pawn => 5 * SpriteWidth;
    Rectangle(x, y, SpriteWidth, SpriteHeight)
  }

  /** Two different pieces never get the same rectangle. */
  lemma SpritePositionInjective(a: Piece, b: Piece)
    requires GetSpritePosition(a) == GetSpritePosition(b)
    ensures a == b
  {
  }

  /** Two different pieces get rectangles that do not overlap, so no crop shows part of another piece. */
  lemma SpritesDisjoint(a: Piece, b: Piece)
    requires a != b
    ensures var ra, rb := GetSpritePosition(a), GetSpritePosition(b);
      ra.x + ra.width <= rb.x || rb.x + rb.width <= ra.x || ra.y + ra.height <= rb.y || rb.y + rb.height <= ra.y
  {
  }
}
