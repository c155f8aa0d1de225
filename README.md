# Chess game: starting position, sprite sheet and board window bookkeeping

A Dafny model of three parts of the Jumindju/ChessGame C# repository:

- **The game's board** (`ChessGameLogic/Game.cs`). Module `GameLogic`, class `Game`. The constructor allocates 64 empty slots of optional pieces. `SetupBoard` fills them in place: sixteen explicit writes for the back ranks, then a loop over the eight columns that places both sides' pawns. The result is stated against a reference layout, `InitialSquare`, defined rank by rank. Further lemmas prove:
  - where each piece stands;
  - the mirrored back ranks;
  - the owner of each row;
  - sixteen pieces per side.
- **Sprite-sheet indexing** (`ChessGameUI/Helper/PieceHelper.cs`, `GetSpritePosition`). Module `PieceHelper`. A pure map from a piece to its 333×333 crop rectangle on a 1998×666 sheet. It is proved in bounds, injective, and free of overlaps between different pieces.
- **The board window's bookkeeping** (`ChessGameUI/Forms/ChessBoardForm.cs`). Module `BoardForm`. This covers:
  - the checkerboard colour rule;
  - the highlight colour of a move;
  - the en-passant capture cell;
  - the colour each tile shows while a piece is selected;
  - the 64 picture-box slots and the two selection fields, which `MovePiece`, `OnTileClick` and `OnPieceClick` update in place.

  Class `ChessBoardForm` has an invariant `Valid()`:
  - every picture box is tagged with its own cell;
  - a piece is selected exactly when moves are highlighted, and a box stands on the selected cell;
  - every tile shows the colour a full repaint would give it.

  Every handler keeps `Valid()`.

Module `Chess` holds the shared vocabulary: players, pieces, move kinds, `BoardSize` = 8, `TileCount` = 64, and the cell ↔ (row, column) arithmetic. Cell 0 is White's left-hand corner, and cells run row by row.

The window calls into the game (`_game.Board[cell]`, `_game.CurrentPlayer`, `_game.GetMoves`, `_game.MovePiece`). That game logic is not part of this model. What those calls return enters the event handlers as parameters:
- `piece`: the game's piece on the clicked cell;
- `currentPlayer`: the player to move (in `MovePiece`, read after the game has switched turns, so already the player to move after the move);
- `pieceMoves`: the moves of the clicked piece;
- `move`: the kind of move the game reports;
- `playerAfterMove`: the player to move after a move.

Picture boxes are objects of a small class whose only field is the `Tag` cell, because `MovePiece` rewrites it and `OnPieceClick` reads it. Tile background colours are an array of a four-value `Color` datatype.

## Model

| member | source | states |
|---|---|---|
| Chess.Row | ChessGameUI/Forms/ChessBoardForm.cs:66-67 | the row of a cell is in 0..7 and the cell lies among that row's eight cells |
| Chess.Column | ChessGameUI/Forms/ChessBoardForm.cs:66-67 | the column of a cell is in 0..7 and row·8 + column gives back the cell |
| Chess.Cell | ChessGameUI/Forms/ChessBoardForm.cs:66-67 | the inverse of the row/column split: the cell of (row, column) is on the board and splits back into that row and column |
| Chess.CellRoundTrip | ChessGameUI/Forms/ChessBoardForm.cs:66-67 | splitting a cell into row and column and joining them again gives the cell |
| GameLogic.InitialPosition | ChessGameLogic/Game.cs:11-48 | the starting position has 64 slots, each holding what the rank-by-rank reference layout puts there |
| GameLogic.Game.constructor | ChessGameLogic/Game.cs:9-13 | the new board is a fresh array of exactly 64 slots holding the starting position |
| GameLogic.Game.SetupBoard | ChessGameLogic/Game.cs:15-49 | every cell the starting position occupies gets its piece and every other cell keeps its old content; the pawn loop's invariant says that after i iterations exactly cells 8..7+i and 48..47+i hold pawns and nothing else changed |
| GameLogic.BackRankWrites | ChessGameLogic/Game.cs:17-41 | the sixteen explicit writes put each back-rank piece on its cell and leave rows 1 to 6 untouched |
| GameLogic.PawnStep | ChessGameLogic/Game.cs:44-48 | one pawn-loop iteration writes exactly cells i+8 (White pawn) and i+48 (Black pawn) |
| GameLogic.SetupResult | ChessGameLogic/Game.cs:15-49 | the back-rank writes followed by eight pawn iterations lay the starting position over the old board |
| GameLogic.InitialSquareByRow | ChessGameLogic/Game.cs:17-48 | by cell index: 0..7 White back rank, 8..15 White pawns, 16..47 empty, 48..55 Black pawns, 56..63 Black back rank |
| GameLogic.PiecePlacement | ChessGameLogic/Game.cs:18-41 | kings on 4 and 60, queens on 3 and 59, rooks on 0, 7, 56, 63, bishops on 2, 5, 58, 61, knights on 1, 6, 57, 62, with the right colours |
| GameLogic.BackRanksMirror | ChessGameLogic/Game.cs:18-41 | for every column c, cells c and 56+c hold pieces of the same type, White on c and Black on 56+c |
| GameLogic.SidesOfTheBoard | ChessGameLogic/Game.cs:11-48 | rows 0–1 hold White pieces, rows 6–7 Black pieces, and a cell is empty exactly when it is in rows 2–5 |
| GameLogic.StartingMaterial | ChessGameLogic/Game.cs:17-48 | each player starts with exactly 16 pieces and 32 cells are occupied |
| PieceHelper.GetSpritePosition | ChessGameUI/Helper/PieceHelper.cs:31-50 | the rectangle is 333×333 and inside the 1998×666 sheet; x is a multiple of 333 whose index in King, Queen, Bishop, Knight, Rock, Pawn is the piece's type; y is a multiple of 333 and is 0 exactly for White; the mapping is total |
| PieceHelper.SpritePositionInjective | ChessGameUI/Helper/PieceHelper.cs:33-49 | two pieces with the same rectangle are the same piece |
| PieceHelper.SpritesDisjoint | ChessGameUI/Helper/PieceHelper.cs:33-49 | the rectangles of two different pieces do not overlap |
| BoardForm.GetTileBackColor | ChessGameUI/Forms/ChessBoardForm.cs:285-293 | a tile's background is white or black, and white exactly when its row and column have the same parity |
| BoardForm.TileColorByParity | ChessGameUI/Forms/ChessBoardForm.cs:285-293 | two tiles share a background exactly when row + column has the same parity for both |
| BoardForm.NeighbouringTilesDiffer | ChessGameUI/Forms/ChessBoardForm.cs:285-293 | horizontally or vertically adjacent tiles have different backgrounds |
| BoardForm.CornerTileIsWhite | ChessGameUI/Forms/ChessBoardForm.cs:285-293 | cell 0, White's left-hand corner, is white |
| BoardForm.GetHighlightColor | ChessGameUI/Forms/ChessBoardForm.cs:280-283 | a move shows the take colour exactly when it is a capture or en passant, and the plain highlight colour otherwise; never a background colour |
| BoardForm.EnPassentCapturePosition | ChessGameUI/Forms/ChessBoardForm.cs:240-244 | the taken pawn's cell is the target minus 8 times the mover's forward direction, i.e. target + 8 when the switched current player is White and target − 8 when Black |
| BoardForm.EnPassentCaptureBehindTarget | ChessGameUI/Forms/ChessBoardForm.cs:240-244 | the taken pawn's cell is in the target's column, one row behind the target as the mover sees it |
| BoardForm.FirstMoveAt | ChessGameUI/Forms/ChessBoardForm.cs:127 | the `FirstOrDefault` search: nothing exactly when no move targets the cell, otherwise a move to the cell with no earlier move to it |
| BoardForm.LastMoveAt | ChessGameUI/Forms/ChessBoardForm.cs:252-257 | the move whose colour survives when the moves are painted in order: nothing exactly when no move targets the cell, otherwise a move to the cell with no later move to it |
| BoardForm.FirstIsLastWhenDistinct | ChessGameUI/Forms/ChessBoardForm.cs:252-257 | when no two moves share a target, painting in order leaves the colour of the first move to each cell, the same colour a full repaint uses |
| BoardForm.RenderedColor | ChessGameUI/Forms/ChessBoardForm.cs:126-137 | a tile shows a background colour exactly when no highlighted move targets it, and then it shows its own background |
| BoardForm.AsWrittenDropsReselectedTiles | ChessGameUI/Forms/ChessBoardForm.cs:250-268 | with the source's order, a tile that was highlighted before and is offered again ends in its background colour, although a repaint would highlight it |
| BoardForm.AsWrittenSecondClickCounterexample | ChessGameUI/Forms/ChessBoardForm.cs:191-200 | clicking the White pawn on cell 12 a second time turns cell 20 white while the move to 20 stays selected |
| BoardForm.CorrectedHighlightMatchesRender | ChessGameUI/Forms/ChessBoardForm.cs:250-268 | resetting the old highlights before painting the new ones leaves every tile as a full repaint for the new selection would show it |
| BoardForm.MovedSlotsAt | ChessGameUI/Forms/ChessBoardForm.cs:214-246 | after a move the target slot holds the former source box, the source slot is empty, the taken pawn's slot is empty for en passant, and every other slot is unchanged |
| BoardForm.ChessBoardForm.constructor | ChessGameUI/Forms/ChessBoardForm.cs:38-51 | the window starts valid with no selection, a newly allocated picture box exactly on the cells the starting position occupies, and every tile in its background colour |
| BoardForm.ChessBoardForm.SetupPieceImageBoxes | ChessGameUI/Forms/ChessBoardForm.cs:82-97 | every cell holding a piece gets a fresh picture box tagged with that cell; the other slots are left as they were |
| BoardForm.ChessBoardForm.RenderBoard | ChessGameUI/Forms/ChessBoardForm.cs:113-137 | each tile gets the colour of the first highlighted move to it, or else its background |
| BoardForm.ChessBoardForm.UndoHighlighting | ChessGameUI/Forms/ChessBoardForm.cs:270-278 | every tile a highlighted move targets gets its background colour, and no other tile changes |
| BoardForm.ChessBoardForm.PaintHighlights | ChessGameUI/Forms/ChessBoardForm.cs:252-257 | every tile a highlighted move targets gets the colour of the last move to it, and no other tile changes |
| BoardForm.ChessBoardForm.ResetTiles | ChessGameUI/Forms/ChessBoardForm.cs:262-267 | every tile a given move targets gets its background colour, and no other tile changes |
| BoardForm.ChessBoardForm.HighlightPossibleTilesAsWritten | ChessGameUI/Forms/ChessBoardForm.cs:250-268 | the source's order, painting the new moves and then resetting the previous selection's tiles, yields `HighlightedAsWritten` on every tile |
| BoardForm.ChessBoardForm.HighlightPossibleTiles | ChessGameUI/Forms/ChessBoardForm.cs:250-268 | resetting the previous selection's tiles and then painting the new moves yields `HighlightedCorrected` on every tile |
| BoardForm.ChessBoardForm.MovePiece | ChessGameUI/Forms/ChessBoardForm.cs:203-248 | the box slots become `MovedSlots` of the old slots, the moved box is retagged with the target, both selection fields become empty, every tile shows its background, and `Valid()` holds again |
| BoardForm.ChessBoardForm.OnTileClick | ChessGameUI/Forms/ChessBoardForm.cs:153-172 | with no selection nothing changes. With a selection, a highlighted move to the tile is made; otherwise the selection is cleared and the boxes stay where they are. In both cases the tiles return to their backgrounds |
| BoardForm.ChessBoardForm.OnPieceClick | ChessGameUI/Forms/ChessBoardForm.cs:174-201 | an empty cell changes nothing; an opponent's piece is taken only when a highlighted move targets it and otherwise nothing changes; the player's own piece becomes the selection with its moves highlighted exactly as a repaint shows them, and no box moves |

## Left out

- Move generation, move execution, turn switching, the en-passant marker and promotion. `Game.GetMoves`, `Game.MovePiece`, `Game.Promote` and `Game.CurrentPlayer` are called by the window but are not defined in `ChessGameLogic/Game.cs`. What they return enters the handlers as parameters, and no chess rule is modelled.
- `BoardSize` and `TileCount` are referenced as `Game.BoardSize` and `Game.TileCount` but are not defined in `ChessGameLogic/Game.cs`. The model uses 8 and 64, matching the 64-slot allocation on line 11 and the 8-column pawn loop.
- The promotion branch of `MovePiece` (ChessBoardForm.cs:227-237) is not modelled: the modal dialog, `_game.Promote` and the new image. A promotion updates the slots and the selection like a regular move.
- Layout, `Controls` add and clear, cursors, images and file I/O are not modelled. This covers:
  - tile size and position from `ClientSize`;
  - `LoadPieceImages`;
  - `PieceHelper.GetPieceImage`, including its stray `Save("./test.png")`;
  - image caching;
  - cursor updates, including the unconditional reset on line 139 that undoes the hand cursor set on line 131.
- The tile panels, and their `Tag` cell, are not modelled as objects. A tile click enters as its cell, and each tile's background is one slot of `tileBackColors`.
- `BoardForm.ChessBoardForm.constructor` runs the form's constructor (lines 38-42) and `OnLoad` (44-51) as one step. The guard in `RenderBoard` against panels that do not exist yet (lines 103-104) therefore never fires. `OnResize` (53-56) only repaints, and `RenderBoard` models that.
- `BoardForm.ChessBoardForm.MovePiece` requires the en-passant capture cell to be on the board. The source would fail on an out-of-range index, and the game, which is not part of this model, only reports en passant where that cell exists.
- `BoardForm.ChessBoardForm.OnTileClick` carries the same requirement on the en-passant capture cell, because it passes the game's answer on to `MovePiece`.
- `BoardForm.ChessBoardForm.OnPieceClick` carries the same requirement on the en-passant capture cell. It also requires every move the game offers for the clicked piece to target a cell of the board; the source would fail on an out-of-range tile index while highlighting.
- `BoardForm.ChessBoardForm.OnPieceClick` requires the game's moves for a piece to target distinct cells. With duplicate targets, a repaint (first match) and painting in order (last match) can disagree on the colour of a cell.
- `BoardForm.ChessBoardForm.OnPieceClick` uses the corrected `HighlightPossibleTiles`, not the source's order (see Findings). `HighlightPossibleTilesAsWritten` keeps the source's order.
- `PieceHelper.GetSpritePosition` has no error path. `PieceType` is a closed datatype, so the `ArgumentException` arm (PieceHelper.cs:46) cannot be reached.
- Not modelled at all:
  - `ChessGameLogic/Pieces/Piece.cs` and `Pawn.cs`, an older class design inconsistent with the `Piece(type, player)` values the game uses;
  - `ChessGameUI/Forms/PromotionDialog.cs`, which is floating-point geometry and enum casts;
  - `ChessGameUI/ChessBoard.cs`, an older layout-only form;
  - `ChessGameUI/Forms/ChessTile.cs`, which is painting only.

## Findings

| source | as written | input that shows it | evidently intended | confidence | as-written member | corrected member |
|---|---|---|---|---|---|---|
| ChessGameUI/Forms/ChessBoardForm.cs:250-268 | `HighlightPossibleTiles` first paints the tiles of the new selection's moves, then resets every tile of the previous selection to its background colour. A tile offered by both selections loses its highlight, although its move is still selected. | Select the White pawn on cell 12 (moves to 20 and 28), then click it again: cells 20 and 28 show their background colours while both moves stay selected. Likewise, selecting the knight on cell 1 and then the pawn on cell 10 leaves cell 18 unhighlighted. | Reset the previous selection's tiles first, then paint the new moves, so every tile shows what a repaint would show. | high, from reading the code; not executed | BoardForm.ChessBoardForm.HighlightPossibleTilesAsWritten, BoardForm.AsWrittenDropsReselectedTiles, BoardForm.AsWrittenSecondClickCounterexample | BoardForm.ChessBoardForm.HighlightPossibleTiles, BoardForm.CorrectedHighlightMatchesRender |
