/**
  * The board window's own bookkeeping: the background colour of each tile, the highlighting of
  * the destinations offered for the selected piece, and the 64 slots holding the picture boxes
  * that show the pieces.
  *
  * The window asks the game for the piece on a cell, for the current player, for a piece's moves and
  * to make a move. Those answers are not computed here; they are parameters of the event handlers.
  */
module BoardForm {
  import opened Chess
  import GameLogic

  /** The four colours a tile can show. */
  datatype Color = WhiteColor | BlackColor | HighlightColor | TakeHighlightColor

  predicate IsBackColor(color: Color) {
    color == WhiteColor || color == BlackColor
  }

  /** The checkerboard: a tile is white when its row and its column have the same parity. */
  function GetTileBackColor(position: int): (color: Color)
    requires IsCell(position)
    ensures IsBackColor(color)
    ensures color == WhiteColor <==> Row(position) % 2 == Column(position) % 2
  {
    var column := Column(position);
    var row := Row(position);
    if row % 2 + column % 2 != 1 then WhiteColor else BlackColor
  }

  /** Two tiles share a colour exactly when the sums of their rows and columns have the same parity. */
  lemma TileColorByParity(a: int, b: int)
    requires IsCell(a) && IsCell(b)
    ensures GetTileBackColor(a) == GetTileBackColor(b) <==> (Row(a) + Column(a)) % 2 == (Row(b) + Column(b)) % 2
  {
    assert GetTileBackColor(a) == WhiteColor <==> (Row(a) + Column(a)) % 2 == 0;
    assert GetTileBackColor(b) == WhiteColor <==> (Row(b) + Column(b)) % 2 == 0;
  }

  /** Tiles side by side or one above the other never share a colour. */
  lemma NeighbouringTilesDiffer(a: int, b: int)
    requires IsCell(a) && IsCell(b)
    requires (Row(a) == Row(b) && Column(b) == Column(a) + 1) || (Column(a) == Column(b) && Row(b) == Row(a) + 1)
    ensures GetTileBackColor(a) != GetTileBackColor(b)
  {
  }

  /** The corner tile of cell 0, White's left-hand corner, is white. */
  lemma CornerTileIsWhite()
    ensures GetTileBackColor(0) == WhiteColor
  {
  }

  /** Captures, en passant included, are shown in the take colour, every other move in the highlight colour. */
  function GetHighlightColor(moveType: MoveType): (color: Color)
    ensures !IsBackColor(color)
    ensures color == TakeHighlightColor <==> moveType == Capture || moveType == EnPassent
  {
    if moveType == Capture || moveType == EnPassent then TakeHighlightColor else HighlightColor
  }

  /**
    * The cell of the pawn taken en passant. It is computed after the game has already handed the
    * turn over, so `currentPlayer` is the opponent of the player who moved: the taken pawn stands one
    * row behind the target, seen from the mover.
    */
  function EnPassentCapturePosition(targetedPosition: int, currentPlayer: Player): (captured: int)
    ensures captured == targetedPosition - BoardSize * Forward(Opponent(currentPlayer))
  {
    var direction := if currentPlayer == White then 1 else -1;
    targetedPosition + BoardSize * direction
  }

  /** The taken pawn is in the target's column, one row back towards the mover's side. */
  lemma EnPassentCaptureBehindTarget(targetedPosition: int, currentPlayer: Player)
    requires IsCell(targetedPosition) && IsCell(EnPassentCapturePosition(targetedPosition, currentPlayer))
    ensures var captured := EnPassentCapturePosition(targetedPosition, currentPlayer);
      Column(captured) == Column(targetedPosition)
      && Row(captured) == Row(targetedPosition) - Forward(Opponent(currentPlayer))
  {
  }

  /** Every move of the list targets a cell of the board. */
  predicate MovesOnBoard(moves: seq<MoveOption>) {
    forall k :: 0 <= k < |moves| ==> IsCell(moves[k].movePosition)
  }

  /** No two moves of the list target the same cell. */
  predicate DistinctPositions(moves: seq<MoveOption>) {
    forall j, k :: 0 <= j < k < |moves| ==> moves[j].movePosition != moves[k].movePosition
  }

  /** The first move of the list that targets `cell`, if any (a search from the front). */
  function FirstMoveAt(moves: seq<MoveOption>, cell: int): (found: Option<MoveOption>)
    ensures found.None? <==> forall k :: 0 <= k < |moves| ==> moves[k].movePosition != cell
    ensures found.Some? ==>
      exists k :: 0 <= k < |moves| && moves[k] == found.value && moves[k].movePosition == cell
        && forall j :: 0 <= j < k ==> moves[j].movePosition != cell
  {
    if moves == [] then None
    else if moves[0].movePosition == cell then Some(moves[0])
    else
      var found := FirstMoveAt(moves[1..], cell);
      assert forall k :: 1 <= k < |moves| ==> moves[k] == moves[1..][k - 1];
      found
  }

  /** The last move of the list that targets `cell`, if any. */
  function LastMoveAt(moves: seq<MoveOption>, cell: int): (found: Option<MoveOption>)
    ensures found.None? <==> forall k :: 0 <= k < |moves| ==> moves[k].movePosition != cell
    ensures found.Some? ==>
      exists k :: 0 <= k < |moves| && moves[k] == found.value && moves[k].movePosition == cell
        && forall j :: k < j < |moves| ==> moves[j].movePosition != cell
  {
    if moves == [] then None
    else
      var later := LastMoveAt(moves[1..], cell);
      assert forall k :: 1 <= k < |moves| ==> moves[k] == moves[1..][k - 1];
      if later.Some? then later
      else if moves[0].movePosition == cell then Some(moves[0])
      else None
  }

  /** When no two moves share a target, the search from the front and from the back agree. */
  lemma FirstIsLastWhenDistinct(moves: seq<MoveOption>, cell: int)
    requires DistinctPositions(moves)
    ensures FirstMoveAt(moves, cell) == LastMoveAt(moves, cell)
  {
  }

  /** A move to `cell` is in the first k + 1 moves exactly when it is in the first k or is move k. */
  lemma FoundInExtendedPrefix(moves: seq<MoveOption>, k: int)
    requires 0 <= k < |moves|
    ensures forall cell :: FirstMoveAt(moves[..k + 1], cell).Some? <==>
      FirstMoveAt(moves[..k], cell).Some? || moves[k].movePosition == cell
  {
  }

  /** The last move to `cell` among the first k + 1 moves is move k if it targets `cell`, else the last among the first k. */
  lemma LastFoundInExtendedPrefix(moves: seq<MoveOption>, k: int, cell: int)
    requires 0 <= k < |moves|
    ensures LastMoveAt(moves[..k + 1], cell) ==
      if moves[k].movePosition == cell then Some(moves[k]) else LastMoveAt(moves[..k], cell)
  {
  }

  /**
    * The colour a tile gets when the whole board is painted: the colour of the first highlighted
    * move to that tile, or else the tile's background colour.
    */
  function RenderedColor(cell: int, highlightedMoves: Option<seq<MoveOption>>): (color: Color)
    requires IsCell(cell)
    ensures IsBackColor(color) <==> highlightedMoves.None? || FirstMoveAt(highlightedMoves.value, cell).None?
    ensures IsBackColor(color) ==> color == GetTileBackColor(cell)
  {
    var highlightedMove := if highlightedMoves.Some? then FirstMoveAt(highlightedMoves.value, cell) else None;
    if highlightedMove.Some? then GetHighlightColor(highlightedMove.value.moveType) else GetTileBackColor(cell)
  }

  /** A tile's colour after painting the moves of a list one after another: the last move to it wins. */
  function PaintMoves(before: Color, cell: int, moves: seq<MoveOption>): Color {
    match LastMoveAt(moves, cell)
    case Some(move) => GetHighlightColor(move.moveType)
    case None => before
  }

  /** A tile's colour after resetting every tile a list of moves targets to its background colour. */
  function ResetMoves(before: Color, cell: int, moves: seq<MoveOption>): Color
    requires IsCell(cell)
  {
    if FirstMoveAt(moves, cell).Some? then GetTileBackColor(cell) else before
  }

  /** A tile after highlighting the new moves and then resetting the previously highlighted ones. */
  function HighlightedAsWritten(before: Color, cell: int, moves: seq<MoveOption>, lastHighlighted: Option<seq<MoveOption>>): Color
    requires IsCell(cell)
  {
    var painted := PaintMoves(before, cell, moves);
    if lastHighlighted.Some? then ResetMoves(painted, cell, lastHighlighted.value) else painted
  }

  /** A tile after resetting the previously highlighted moves and then highlighting the new ones. */
  function HighlightedCorrected(before: Color, cell: int, moves: seq<MoveOption>, lastHighlighted: Option<seq<MoveOption>>): Color
    requires IsCell(cell)
  {
    var reset := if lastHighlighted.Some? then ResetMoves(before, cell, lastHighlighted.value) else before;
    PaintMoves(reset, cell, moves)
  }

  /**
    * Highlighting as written loses every tile that was highlighted before and is highlighted again:
    * it ends in its background colour although the new selection offers a move there.
    */
  lemma AsWrittenDropsReselectedTiles(before: Color, cell: int, moves: seq<MoveOption>, lastHighlighted: Option<seq<MoveOption>>)
    requires IsCell(cell)
    requires lastHighlighted.Some? && FirstMoveAt(lastHighlighted.value, cell).Some?
    requires FirstMoveAt(moves, cell).Some?
    ensures HighlightedAsWritten(before, cell, moves, lastHighlighted) == GetTileBackColor(cell)
    ensures !IsBackColor(RenderedColor(cell, Some(moves)))
  {
  }

  /**
    * Clicking the White pawn on cell 12 twice: its moves to 20 and 28 stay selected, but after the
    * second click cell 20 shows its background colour instead of the highlight colour.
    */
  lemma AsWrittenSecondClickCounterexample()
    ensures var moves := [MoveOption(20, Regular), MoveOption(28, Regular)];
      RenderedColor(20, Some(moves)) == HighlightColor
      && HighlightedAsWritten(RenderedColor(20, Some(moves)), 20, moves, Some(moves)) == WhiteColor
  {
  }

  /**
    * Resetting before painting keeps the tiles as a full repaint would show them: starting from the
    * tiles of the previous selection, each tile ends with the colour of the new selection.
    */
  lemma CorrectedHighlightMatchesRender(before: Color, cell: int, moves: seq<MoveOption>, lastHighlighted: Option<seq<MoveOption>>)
    requires IsCell(cell) && DistinctPositions(moves)
    requires before == RenderedColor(cell, lastHighlighted)
    ensures HighlightedCorrected(before, cell, moves, lastHighlighted) == RenderedColor(cell, Some(moves))
  {
  }

  /**
    * The picture-box slots after a move from `source` to `target`: the box moves along, the source
    * slot is emptied and, for en passant, so is the taken pawn's slot.
    */
  function MovedSlots(slots: seq<PictureBox?>, source: int, target: int, move: MoveType, currentPlayer: Player): seq<PictureBox?>
    requires 0 <= source < |slots| && 0 <= target < |slots|
    requires move == EnPassent ==> 0 <= EnPassentCapturePosition(target, currentPlayer) < |slots|
  {
    var moved := slots[target := slots[source]][source := null];
    if move == EnPassent then moved[EnPassentCapturePosition(target, currentPlayer) := null] else moved
  }

  /** Slot by slot: what a move does to the picture boxes, and that every other slot keeps its box. */
  lemma MovedSlotsAt(slots: seq<PictureBox?>, source: int, target: int, move: MoveType, currentPlayer: Player, cell: int)
    requires 0 <= source < |slots| && 0 <= target < |slots| && 0 <= cell < |slots|
    requires move == EnPassent ==> 0 <= EnPassentCapturePosition(target, currentPlayer) < |slots|
    ensures var after := MovedSlots(slots, source, target, move, currentPlayer);
      var captured := EnPassentCapturePosition(target, currentPlayer);
      |after| == |slots|
      && after[source] == null
      && (source != target && !(move == EnPassent && target == captured) ==> after[target] == slots[source])
      && (move == EnPassent ==> after[captured] == null)
      && (cell != source && cell != target && !(move == EnPassent && cell == captured) ==> after[cell] == slots[cell])
  {
  }

  /** A picture box showing a piece; its tag is the cell it stands on, read back when it is clicked. */
  class PictureBox {
    var tag: int

    constructor (tag: int)
      ensures this.tag == tag
    {
      this.tag := tag;
    }
  }

  class ChessBoardForm {
    /** The background colour of each tile panel. */
    const tileBackColors: array<Color>
    /** The picture box shown on each cell, null where no piece stands. */
    const pieceImageBoxes: array<PictureBox?>
    /** The cell of the selected piece. */
    var currentSelectedPiecePosition: Option<int>
    /** The moves offered for the selected piece. */
    var currentlyHighlightedMoves: Option<seq<MoveOption>>

    /**
      * Every box knows its cell (so no box stands on two cells); a piece is selected exactly when its
      * moves are highlighted, and a box stands on its cell; every tile shows the colour a full repaint
      * would give it.
      */
    ghost predicate Valid()
      reads this, tileBackColors, pieceImageBoxes, pieceImageBoxes[..]
    {
      tileBackColors.Length == TileCount && pieceImageBoxes.Length == TileCount
      && (forall cell :: IsCell(cell) && pieceImageBoxes[cell] != null ==> pieceImageBoxes[cell].tag == cell)
      && (currentSelectedPiecePosition.Some? <==> currentlyHighlightedMoves.Some?)
      && (currentSelectedPiecePosition.Some? ==>
            IsCell(currentSelectedPiecePosition.value) && pieceImageBoxes[currentSelectedPiecePosition.value] != null)
      && (currentlyHighlightedMoves.Some? ==> MovesOnBoard(currentlyHighlightedMoves.value))
      && forall cell :: IsCell(cell) ==> tileBackColors[cell] == RenderedColor(cell, currentlyHighlightedMoves)
    }

    /**
      * Creates the game, puts a new picture box on every cell the starting position occupies and
      * paints the tiles; nothing is selected.
      */
    constructor ()
      ensures Valid() && fresh(tileBackColors) && fresh(pieceImageBoxes)
      ensures currentSelectedPiecePosition.None? && currentlyHighlightedMoves.None?
      ensures forall cell :: IsCell(cell) ==> (pieceImageBoxes[cell] != null <==> GameLogic.InitialSquare(cell).Some?)
      ensures forall cell :: IsCell(cell) && pieceImageBoxes[cell] != null ==> fresh(pieceImageBoxes[cell])
      ensures forall cell :: IsCell(cell) ==> tileBackColors[cell] == GetTileBackColor(cell)
    {
      var game := new GameLogic.Game();
      tileBackColors := new Color[TileCount](_ => WhiteColor);
      pieceImageBoxes := new PictureBox?[TileCount](_ => null);
      currentSelectedPiecePosition := None;
      currentlyHighlightedMoves := None;
      new;
      SetupPieceImageBoxes(game.board[..]);
      RenderBoard();
    }

    /** One fresh picture box, tagged with its cell, on every cell where the game has a piece. */
    method SetupPieceImageBoxes(board: seq<Option<Piece>>)
      requires |board| == TileCount && pieceImageBoxes.Length == TileCount
      modifies pieceImageBoxes
      ensures forall cell :: IsCell(cell) ==>
        if board[cell].Some? then pieceImageBoxes[cell] != null && fresh(pieceImageBoxes[cell]) && pieceImageBoxes[cell].tag == cell
        else pieceImageBoxes[cell] == old(pieceImageBoxes[cell])
    {
      for cell := 0 to TileCount
        invariant forall j :: 0 <= j < cell ==>
          if board[j].Some? then pieceImageBoxes[j] != null && fresh(pieceImageBoxes[j]) && pieceImageBoxes[j].tag == j
          else pieceImageBoxes[j] == old(pieceImageBoxes[j])
        invariant forall j :: cell <= j < TileCount ==> pieceImageBoxes[j] == old(pieceImageBoxes[j])
      {
        if board[cell].Some? {
          var pieceImgBox := new PictureBox(cell);
          pieceImageBoxes[cell] := pieceImgBox;
        }
      }
    }

    /** Paints every tile: the first highlighted move to it decides its colour, else its background. */
    method RenderBoard()
      requires tileBackColors.Length == TileCount
      modifies tileBackColors
      ensures forall cell :: IsCell(cell) ==> tileBackColors[cell] == RenderedColor(cell, currentlyHighlightedMoves)
    {
      for cell := 0 to TileCount
        invariant forall j :: 0 <= j < cell ==> tileBackColors[j] == RenderedColor(j, currentlyHighlightedMoves)
      {
        var highlightedMove := if currentlyHighlightedMoves.Some? then FirstMoveAt(currentlyHighlightedMoves.value, cell) else None;
        if highlightedMove.Some? {
          tileBackColors[cell] := GetHighlightColor(highlightedMove.value.moveType);
        } else {
          tileBackColors[cell] := GetTileBackColor(cell);
        }
      }
    }

    /** Resets the tile of every highlighted move to its background colour. */
    method UndoHighlighting()
      requires tileBackColors.Length == TileCount
      requires currentlyHighlightedMoves.Some? && MovesOnBoard(currentlyHighlightedMoves.value)
      modifies tileBackColors
      ensures forall cell :: IsCell(cell) ==>
        tileBackColors[cell] == ResetMoves(old(tileBackColors[cell]), cell, currentlyHighlightedMoves.value)
    {
      ResetTiles(currentlyHighlightedMoves.value);
    }

    /**
      * Highlights the tiles of the selected piece's moves, then resets the tiles of the previous
      * selection to their background colours, in that order.
      */
    method HighlightPossibleTilesAsWritten(lastHighlightedTiles: Option<seq<MoveOption>>)
      requires tileBackColors.Length == TileCount
      requires currentlyHighlightedMoves.Some? && MovesOnBoard(currentlyHighlightedMoves.value)
      requires lastHighlightedTiles.Some? ==> MovesOnBoard(lastHighlightedTiles.value)
      modifies tileBackColors
      ensures forall cell :: IsCell(cell) ==>
        tileBackColors[cell] == HighlightedAsWritten(old(tileBackColors[cell]), cell, currentlyHighlightedMoves.value, lastHighlightedTiles)
    {
      PaintHighlights();
      if lastHighlightedTiles.None? {
        return;
      }
      ResetTiles(lastHighlightedTiles.value);
    }

    /**
      * Resets the tiles of the previous selection, then highlights the tiles of the selected piece's
      * moves, so that a tile in both keeps its highlight.
      */
    method HighlightPossibleTiles(lastHighlightedTiles: Option<seq<MoveOption>>)
      requires tileBackColors.Length == TileCount
      requires currentlyHighlightedMoves.Some? && MovesOnBoard(currentlyHighlightedMoves.value)
      requires lastHighlightedTiles.Some? ==> MovesOnBoard(lastHighlightedTiles.value)
      modifies tileBackColors
      ensures forall cell :: IsCell(cell) ==>
        tileBackColors[cell] == HighlightedCorrected(old(tileBackColors[cell]), cell, currentlyHighlightedMoves.value, lastHighlightedTiles)
    {
      if lastHighlightedTiles.Some? {
        ResetTiles(lastHighlightedTiles.value);
      }
      PaintHighlights();
    }

    /** Gives the tile of each highlighted move its highlight colour, in list order. */
    method PaintHighlights()
      requires tileBackColors.Length == TileCount
      requires currentlyHighlightedMoves.Some? && MovesOnBoard(currentlyHighlightedMoves.value)
      modifies tileBackColors
      ensures forall cell :: IsCell(cell) ==>
        tileBackColors[cell] == PaintMoves(old(tileBackColors[cell]), cell, currentlyHighlightedMoves.value)
    {
      var moves := currentlyHighlightedMoves.value;
      for k := 0 to |moves|
        invariant forall cell :: IsCell(cell) ==> tileBackColors[cell] == PaintMoves(old(tileBackColors[cell]), cell, moves[..k])
      {
        var movePosition := moves[k].movePosition;
        tileBackColors[movePosition] := GetHighlightColor(moves[k].moveType);
        forall cell | IsCell(cell)
          ensures LastMoveAt(moves[..k + 1], cell) ==
            if moves[k].movePosition == cell then Some(moves[k]) else LastMoveAt(moves[..k], cell)
        {
          LastFoundInExtendedPrefix(moves, k, cell);
        }
      }
      assert moves[..|moves|] == moves;
    }

    /** Gives the tile of each move of `moves` its background colour. */
    method ResetTiles(moves: seq<MoveOption>)
      requires tileBackColors.Length == TileCount && MovesOnBoard(moves)
      modifies tileBackColors
      ensures forall cell :: IsCell(cell) ==> tileBackColors[cell] == ResetMoves(old(tileBackColors[cell]), cell, moves)
    {
      for k := 0 to |moves|
        invariant forall cell :: IsCell(cell) ==> tileBackColors[cell] == ResetMoves(old(tileBackColors[cell]), cell, moves[..k])
      {
        var movePosition := moves[k].movePosition;
        tileBackColors[movePosition] := GetTileBackColor(movePosition);
        FoundInExtendedPrefix(moves, k);
      }
      assert moves[..|moves|] == moves;
    }

    /**
      * Carries out a move on the window's side: clears the highlighting, moves the selected piece's box
      * to the target cell and retags it, empties the source slot (and, for en passant, the taken pawn's
      * slot) and drops the selection. `move` is the kind of move the game reports having made, and
      * `currentPlayer` is the player to move after it.
      */
    method MovePiece(targetMove: MoveOption, move: MoveType, currentPlayer: Player)
      requires Valid() && currentSelectedPiecePosition.Some?
      requires IsCell(targetMove.movePosition)
      requires move == EnPassent ==> IsCell(EnPassentCapturePosition(targetMove.movePosition, currentPlayer))
      modifies this, tileBackColors, pieceImageBoxes, pieceImageBoxes[currentSelectedPiecePosition.value]
      ensures Valid()
      ensures currentSelectedPiecePosition.None? && currentlyHighlightedMoves.None?
      ensures forall cell :: IsCell(cell) ==> tileBackColors[cell] == GetTileBackColor(cell)
      ensures pieceImageBoxes[..] == MovedSlots(old(pieceImageBoxes[..]), old(currentSelectedPiecePosition.value),
                                                targetMove.movePosition, move, currentPlayer)
      ensures old(pieceImageBoxes[currentSelectedPiecePosition.value]).tag == targetMove.movePosition
    {
      UndoHighlighting();

      var selectedPiecePosition := currentSelectedPiecePosition.value;
      var targetedPosition := targetMove.movePosition;

      var pieceImageBox := pieceImageBoxes[selectedPiecePosition];
      pieceImageBoxes[targetedPosition] := pieceImageBox;
      pieceImageBox.tag := targetMove.movePosition;

      pieceImageBoxes[selectedPiecePosition] := null;

      currentlyHighlightedMoves := None;
      currentSelectedPiecePosition := None;

      if move == EnPassent {
        var enPassentCapturePosition := EnPassentCapturePosition(targetedPosition, currentPlayer);
        pieceImageBoxes[enPassentCapturePosition] := null;
      }
    }

    /**
      * A click on an empty tile. Without a selection nothing happens. With one, a highlighted move to
      * the tile is carried out; otherwise the highlighting is cleared and the selection dropped.
      * `move` is the kind of move the game reports if a move is made, and `playerAfterMove` the player
      * to move after it.
      */
    method OnTileClick(targetedPosition: int, move: MoveType, playerAfterMove: Player)
      requires Valid() && IsCell(targetedPosition)
      requires move == EnPassent ==> IsCell(EnPassentCapturePosition(targetedPosition, playerAfterMove))
      modifies this, tileBackColors, pieceImageBoxes, pieceImageBoxes[..]
      ensures Valid()
      ensures old(currentlyHighlightedMoves).None? ==> unchanged(this, tileBackColors, pieceImageBoxes)
      ensures old(currentlyHighlightedMoves).Some? ==>
        currentSelectedPiecePosition.None? && currentlyHighlightedMoves.None?
        && (forall cell :: IsCell(cell) ==> tileBackColors[cell] == GetTileBackColor(cell))
        && pieceImageBoxes[..] ==
             if FirstMoveAt(old(currentlyHighlightedMoves.value), targetedPosition).Some? then
               MovedSlots(old(pieceImageBoxes[..]), old(currentSelectedPiecePosition.value), targetedPosition, move, playerAfterMove)
             else
               old(pieceImageBoxes[..])
    {
      if currentlyHighlightedMoves.None? || currentSelectedPiecePosition.None? {
        return;
      }

      var targetMove := FirstMoveAt(currentlyHighlightedMoves.value, targetedPosition);

      if targetMove.Some? {
        MovePiece(targetMove.value, move, playerAfterMove);
      } else {
        UndoHighlighting();
        currentlyHighlightedMoves := None;
        currentSelectedPiecePosition := None;
      }
    }

    /**
      * A click on a piece's box. `piece` is what the game has on the box's cell, `currentPlayer` the
      * player to move, `pieceMoves` the game's moves for that piece, and `move` and `playerAfterMove`
      * what the game reports if a move is made. An opponent's piece is taken when a highlighted move
      * targets it; a piece of the player to move becomes the selection and its moves are highlighted.
      */
    method OnPieceClick(sender: PictureBox, piece: Option<Piece>, currentPlayer: Player, pieceMoves: seq<MoveOption>,
                        move: MoveType, playerAfterMove: Player)
      requires Valid() && sender in pieceImageBoxes[..]
      requires MovesOnBoard(pieceMoves) && DistinctPositions(pieceMoves)
      requires move == EnPassent ==> IsCell(EnPassentCapturePosition(sender.tag, playerAfterMove))
      modifies this, tileBackColors, pieceImageBoxes, pieceImageBoxes[..]
      ensures Valid()
      ensures piece.None? ==> unchanged(this, tileBackColors, pieceImageBoxes)
      ensures piece.Some? && piece.value.player != currentPlayer ==>
        if old(currentlyHighlightedMoves).Some? && FirstMoveAt(old(currentlyHighlightedMoves.value), old(sender.tag)).Some? then
          currentSelectedPiecePosition.None? && currentlyHighlightedMoves.None?
          && pieceImageBoxes[..] ==
               MovedSlots(old(pieceImageBoxes[..]), old(currentSelectedPiecePosition.value), old(sender.tag), move, playerAfterMove)
        else
          unchanged(this, tileBackColors, pieceImageBoxes)
      ensures piece.Some? && piece.value.player == currentPlayer ==>
        currentSelectedPiecePosition == Some(old(sender.tag)) && currentlyHighlightedMoves == Some(pieceMoves)
        && unchanged(pieceImageBoxes)
        && forall cell :: IsCell(cell) ==> tileBackColors[cell] == RenderedColor(cell, Some(pieceMoves))
    {
      var piecePosition := sender.tag;
      ghost var slot :| 0 <= slot < pieceImageBoxes.Length && pieceImageBoxes[slot] == sender;
      var targetMove := if currentlyHighlightedMoves.Some? then FirstMoveAt(currentlyHighlightedMoves.value, piecePosition) else None;

      if piece.None? {
        return;
      }

      if piece.value.player != currentPlayer {
        if targetMove.Some? {
          MovePiece(targetMove.value, move, playerAfterMove);
        }
        return;
      }

      currentSelectedPiecePosition := Some(piecePosition);

      var lastHighlighted := currentlyHighlightedMoves;
      currentlyHighlightedMoves := Some(pieceMoves);

      ghost var before := tileBackColors[..];
      HighlightPossibleTiles(lastHighlighted);
      forall cell | IsCell(cell)
        ensures tileBackColors[cell] == RenderedColor(cell, currentlyHighlightedMoves)
      {
        CorrectedHighlightMatchesRender(before[cell], cell, pieceMoves, lastHighlighted);
      }
    }
  }
}
