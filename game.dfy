/**
  * The game's board: 64 slots of optional pieces, allocated empty and then filled in place with
  * the standard starting position.
  */
module GameLogic {
  import opened Chess

  /** The piece types of a back rank, from column 0 to column 7. */
  const BackRank: seq<PieceType> := [Rock, Knight, Bishop, Queen, King, Bishop, Knight, Rock]

  /**
    * The starting position described rank by rank: White's back rank and pawns on rows 0 and 1,
    * Black's pawns and back rank on rows 6 and 7, nothing in between.
    */
  function InitialSquare(square: int): Option<Piece>
    requires IsCell(square)
  {
    var row, column := Row(square), Column(square);
    if row == 0 then Some(Piece(BackRank[column], White))
    else if row == 1 then Some(Piece(Pawn, White))
    else if row == 6 then Some(Piece(Pawn, Black))
    else if row == 7 then Some(Piece(BackRank[column], Black))
    else None
  }

  /** The whole starting position as a sequence of 64 slots. */
  function InitialPosition(): (squares: seq<Option<Piece>>)
    ensures |squares| == TileCount
    ensures forall square :: IsCell(square) ==> squares[square] == InitialSquare(square)
  {
    seq(TileCount, square requires IsCell(square) => InitialSquare(square))
  }

  class Game {
    /** The 64 slots; the array is fixed at construction, its slots change in place. */
    const board: array<Option<Piece>>

    /** Allocates an empty 64-slot board and sets up the starting position. */
    constructor ()
      ensures fresh(board)
      ensures board.Length == TileCount
      ensures board[..] == InitialPosition()
    {
      board := new Option<Piece>[TileCount](_ => None);
      new;
      SetupBoard();
      forall square | IsCell(square)
        ensures board[square] == InitialSquare(square)
      {
        SidesOfTheBoard(square);
      }
      assert board[..] == InitialPosition();
    }

    /**
      * Writes the back ranks slot by slot, then the pawns of both sides one column per iteration.
      * Rows 2 to 5 are never written and keep the empty slots of the fresh array.
      */
    method SetupBoard()
      requires board.Length == TileCount
      modifies board
      ensures LaidOver(old(board[..]), board[..])
    {
      // Kings
      board[4] := Some(Piece(King, White));
      board[60] := Some(Piece(King, Black));

      // Queens
      board[3] := Some(Piece(Queen, White));
      board[59] := Some(Piece(Queen, Black));

      // Rooks
      board[0] := Some(Piece(Rock, White));
      board[7] := Some(Piece(Rock, White));
      board[56] := Some(Piece(Rock, Black));
      board[63] := Some(Piece(Rock, Black));

      // Bishops
      board[2] := Some(Piece(Bishop, White));
      board[5] := Some(Piece(Bishop, White));
      board[58] := Some(Piece(Bishop, Black));
      board[61] := Some(Piece(Bishop, Black));

      // Knights
      board[1] := Some(Piece(Knight, White));
      board[6] := Some(Piece(Knight, White));
      board[57] := Some(Piece(Knight, Black));
      board[62] := Some(Piece(Knight, Black));

      ghost var backRanks := board[..];
      assert backRanks == old(board[..])
        [4 := Some(Piece(King, White))][60 := Some(Piece(King, Black))]
        [3 := Some(Piece(Queen, White))][59 := Some(Piece(Queen, Black))]
        [0 := Some(Piece(Rock, White))][7 := Some(Piece(Rock, White))]
        [56 := Some(Piece(Rock, Black))][63 := Some(Piece(Rock, Black))]
        [2 := Some(Piece(Bishop, White))][5 := Some(Piece(Bishop, White))]
        [58 := Some(Piece(Bishop, Black))][61 := Some(Piece(Bishop, Black))]
        [1 := Some(Piece(Knight, White))][6 := Some(Piece(Knight, White))]
        [57 := Some(Piece(Knight, Black))][62 := Some(Piece(Knight, Black))];
      BackRankWrites(old(board[..]));

      // Pawns
      for i := 0 to BoardSize
        invariant PawnsPlaced(backRanks, board[..], i)
      {
        ghost var before := board[..];
        board[i + 8] := Some(Piece(Pawn, White));
        board[i + 48] := Some(Piece(Pawn, Black));
        assert board[..] == before[i + 8 := Some(Piece(Pawn, White))][i + 48 := Some(Piece(Pawn, Black))];
        PawnStep(backRanks, before, i);
      }

      SetupResult(old(board[..]), backRanks, board[..]);
    }
  }

  /**
    * After `count` iterations of the pawn loop: the first `count` cells of row 1 hold White pawns,
    * the first `count` cells of row 6 hold Black pawns, and every other cell is as before the loop.
    */
  ghost predicate PawnsPlaced(before: seq<Option<Piece>>, after: seq<Option<Piece>>, count: int) {
    |before| == |after| == TileCount && 0 <= count <= BoardSize
    && (forall square :: 8 <= square < 8 + count ==> after[square] == Some(Piece(Pawn, White)))
    && (forall square :: 48 <= square < 48 + count ==> after[square] == Some(Piece(Pawn, Black)))
    && (forall square :: IsCell(square) && !(8 <= square < 8 + count) && !(48 <= square < 48 + count) ==>
          after[square] == before[square])
  }

  /** One iteration of the pawn loop writes column `count` of rows 1 and 6 and nothing else. */
  lemma PawnStep(before: seq<Option<Piece>>, current: seq<Option<Piece>>, count: int)
    requires PawnsPlaced(before, current, count) && count < BoardSize
    ensures PawnsPlaced(before, current[count + 8 := Some(Piece(Pawn, White))][count + 48 := Some(Piece(Pawn, Black))], count + 1)
  {
  }

  /**
    * The sixteen explicit writes of SetupBoard: each back-rank cell holds its piece, rows 1 to 6
    * are as before.
    */
  ghost predicate BackRanksWritten(before: seq<Option<Piece>>, after: seq<Option<Piece>>) {
    |before| == |after| == TileCount
    && after[0] == Some(Piece(Rock, White)) && after[1] == Some(Piece(Knight, White))
    && after[2] == Some(Piece(Bishop, White)) && after[3] == Some(Piece(Queen, White))
    && after[4] == Some(Piece(King, White)) && after[5] == Some(Piece(Bishop, White))
    && after[6] == Some(Piece(Knight, White)) && after[7] == Some(Piece(Rock, White))
    && after[56] == Some(Piece(Rock, Black)) && after[57] == Some(Piece(Knight, Black))
    && after[58] == Some(Piece(Bishop, Black)) && after[59] == Some(Piece(Queen, Black))
    && after[60] == Some(Piece(King, Black)) && after[61] == Some(Piece(Bishop, Black))
    && after[62] == Some(Piece(Knight, Black)) && after[63] == Some(Piece(Rock, Black))
    && forall square :: 8 <= square < 56 ==> after[square] == before[square]
  }

  /** The sixteen explicit writes of SetupBoard, applied to any 64-slot board, write the back ranks and nothing else. */
  lemma BackRankWrites(before: seq<Option<Piece>>)
    requires |before| == TileCount
    ensures BackRanksWritten(before, before
        [4 := Some(Piece(King, White))][60 := Some(Piece(King, Black))]
        [3 := Some(Piece(Queen, White))][59 := Some(Piece(Queen, Black))]
        [0 := Some(Piece(Rock, White))][7 := Some(Piece(Rock, White))]
        [56 := Some(Piece(Rock, Black))][63 := Some(Piece(Rock, Black))]
        [2 := Some(Piece(Bishop, White))][5 := Some(Piece(Bishop, White))]
        [58 := Some(Piece(Bishop, Black))][61 := Some(Piece(Bishop, Black))]
        [1 := Some(Piece(Knight, White))][6 := Some(Piece(Knight, White))]
        [57 := Some(Piece(Knight, Black))][62 := Some(Piece(Knight, Black))])
  {
  }

  /**
    * `after` is the starting position laid over `before`: every cell the starting position occupies
    * holds its piece, every other cell keeps what `before` held there.
    */
  ghost predicate LaidOver(before: seq<Option<Piece>>, after: seq<Option<Piece>>) {
    |before| == |after| == TileCount
    && forall square :: IsCell(square) ==>
         after[square] == if InitialSquare(square).Some? then InitialSquare(square) else before[square]
  }

  /** The sixteen explicit writes followed by the pawn loop lay the starting position over the old board. */
  lemma SetupResult(before: seq<Option<Piece>>, backRanks: seq<Option<Piece>>, after: seq<Option<Piece>>)
    requires BackRanksWritten(before, backRanks)
    requires PawnsPlaced(backRanks, after, BoardSize)
    ensures LaidOver(before, after)
  {
  }

  /** The reference layout read off by cell index: which index ranges hold which pieces. */
  lemma InitialSquareByRow(square: int)
    requires IsCell(square)
    ensures 0 <= square < 8 ==> InitialSquare(square) == Some(Piece(BackRank[square], White))
    ensures 8 <= square < 16 ==> InitialSquare(square) == Some(Piece(Pawn, White))
    ensures 16 <= square < 48 ==> InitialSquare(square) == None
    ensures 48 <= square < 56 ==> InitialSquare(square) == Some(Piece(Pawn, Black))
    ensures 56 <= square < 64 ==> InitialSquare(square) == Some(Piece(BackRank[square - 56], Black))
  {
  }

  /** Kings, queens, rooks, bishops and knights stand on the cells the program writes them to. */
  lemma PiecePlacement()
    ensures InitialSquare(4) == Some(Piece(King, White)) && InitialSquare(60) == Some(Piece(King, Black))
    ensures InitialSquare(3) == Some(Piece(Queen, White)) && InitialSquare(59) == Some(Piece(Queen, Black))
    ensures InitialSquare(0) == Some(Piece(Rock, White)) && InitialSquare(7) == Some(Piece(Rock, White))
    ensures InitialSquare(56) == Some(Piece(Rock, Black)) && InitialSquare(63) == Some(Piece(Rock, Black))
    ensures InitialSquare(2) == Some(Piece(Bishop, White)) && InitialSquare(5) == Some(Piece(Bishop, White))
    ensures InitialSquare(58) == Some(Piece(Bishop, Black)) && InitialSquare(61) == Some(Piece(Bishop, Black))
    ensures InitialSquare(1) == Some(Piece(Knight, White)) && InitialSquare(6) == Some(Piece(Knight, White))
    ensures InitialSquare(57) == Some(Piece(Knight, Black)) && InitialSquare(62) == Some(Piece(Knight, Black))
  {
  }

  /** Each Black back-rank piece faces a White piece of the same type in the same column. */
  lemma BackRanksMirror(column: int)
    requires 0 <= column < BoardSize
    ensures InitialSquare(column).Some? && InitialSquare(56 + column).Some?
    ensures InitialSquare(column).value.player == White && InitialSquare(56 + column).value.player == Black
    ensures InitialSquare(56 + column).value.pieceType == InitialSquare(column).value.pieceType
  {
  }

  /** Rows 0 and 1 belong to White, rows 6 and 7 to Black, rows 2 to 5 are empty. */
  lemma SidesOfTheBoard(square: int)
    requires IsCell(square)
    ensures Row(square) <= 1 ==> InitialSquare(square).Some? && InitialSquare(square).value.player == White
    ensures 2 <= Row(square) <= 5 <==> InitialSquare(square).None?
    ensures Row(square) >= 6 ==> InitialSquare(square).Some? && InitialSquare(square).value.player == Black
  {
  }

  predicate OwnedBy(slot: Option<Piece>, player: Player) {
    slot.Some? && slot.value.player == player
  }

  /** The number of slots holding a piece of `player`. */
  function CountOwned(squares: seq<Option<Piece>>, player: Player): (n: nat)
    ensures n <= |squares|
  {
    if squares == [] then 0
    else CountOwned(squares[..|squares| - 1], player) + (if OwnedBy(squares[|squares| - 1], player) then 1 else 0)
  }

  /** The number of occupied slots. */
  function CountOccupied(squares: seq<Option<Piece>>): (n: nat)
    ensures n <= |squares|
  {
    if squares == [] then 0
    else CountOccupied(squares[..|squares| - 1]) + (if squares[|squares| - 1].Some? then 1 else 0)
  }

  lemma {:induction false} CountOwnedAppend(a: seq<Option<Piece>>, b: seq<Option<Piece>>, player: Player)
    ensures CountOwned(a + b, player) == CountOwned(a, player) + CountOwned(b, player)
  {
    if b != [] {
      assert (a + b)[..|a + b| - 1] == a + b[..|b| - 1];
      CountOwnedAppend(a, b[..|b| - 1], player);
    } else {
      assert a + b == a;
    }
  }

  lemma {:induction false} CountOwnedAll(squares: seq<Option<Piece>>, player: Player)
    requires forall k :: 0 <= k < |squares| ==> OwnedBy(squares[k], player)
    ensures CountOwned(squares, player) == |squares|
  {
    if squares != [] {
      CountOwnedAll(squares[..|squares| - 1], player);
    }
  }

  lemma {:induction false} CountOwnedNone(squares: seq<Option<Piece>>, player: Player)
    requires forall k :: 0 <= k < |squares| ==> !OwnedBy(squares[k], player)
    ensures CountOwned(squares, player) == 0
  {
    if squares != [] {
      CountOwnedNone(squares[..|squares| - 1], player);
    }
  }

  /** An occupied slot belongs to exactly one of the two players. */
  lemma {:induction false} OccupiedIsWhitePlusBlack(squares: seq<Option<Piece>>)
    ensures CountOccupied(squares) == CountOwned(squares, White) + CountOwned(squares, Black)
  {
    if squares != [] {
      OccupiedIsWhitePlusBlack(squares[..|squares| - 1]);
    }
  }

  /** Each player starts with sixteen pieces; thirty-two cells are occupied. */
  lemma StartingMaterial()
    ensures CountOwned(InitialPosition(), White) == 16
    ensures CountOwned(InitialPosition(), Black) == 16
    ensures CountOccupied(InitialPosition()) == 32
  {
    var position := InitialPosition();
    var whiteHalf, middle, blackHalf := position[..16], position[16..48], position[48..];
    assert position == whiteHalf + middle + blackHalf;
    forall k | 0 <= k < 16
      ensures OwnedBy(whiteHalf[k], White) && !OwnedBy(whiteHalf[k], Black)
      ensures OwnedBy(blackHalf[k], Black) && !OwnedBy(blackHalf[k], White)
    {
      InitialSquareByRow(k);
      InitialSquareByRow(48 + k);
    }
    forall k | 0 <= k < 32
      ensures !OwnedBy(middle[k], White) && !OwnedBy(middle[k], Black)
    {
      InitialSquareByRow(16 + k);
    }
    CountOwnedAll(whiteHalf, White);
    CountOwnedNone(whiteHalf, Black);
    CountOwnedNone(middle, White);
    CountOwnedNone(middle, Black);
    CountOwnedAll(blackHalf, Black);
    CountOwnedNone(blackHalf, White);
    CountOwnedAppend(whiteHalf, middle, White);
    CountOwnedAppend(whiteHalf + middle, blackHalf, White);
    CountOwnedAppend(whiteHalf, middle, Black);
    CountOwnedAppend(whiteHalf + middle, blackHalf, Black);
    OccupiedIsWhitePlusBlack(position);
  }
}
