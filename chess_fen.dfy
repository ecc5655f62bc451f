// Forsyth–Edwards Notation: loading a position from its text (`LoadFen`).
//
// The six fields are read in order: the piece placement (eight ranks from the eighth down,
// separated by '/'), the side to move, the castling rights, the en-passant square and the
// two move counters. The model describes the placement field by the list of pieces its
// loop puts down, and the board `LoadFen` leaves by `Loaded`, the position that list and
// the other fields give.

module ForsythEdwardsNotation {
  import opened CSharp
  import opened ULong
  import opened Bitboard
  import Piece
  import Flags
  import Zobrist
  import Attacks
  import opened ChessBoard
  import UniversalChessInterface

  const StartingPositionFen: string := "rnbqkbnr/pppppppp/8/8/8/8/PPPPPPPP/RNBQKBNR w KQkq - 0 1"
  const FullCastlings: string := "KQkq"

  // ------------------------------------------------------------ the fields

  /** The space-separated fields. */
  function Fields(fen: string): (fields: seq<string>)
    ensures |fields| >= 1
  {
    Split(fen, ' ')
  }

  /** The ranks of the placement field, the eighth first. */
  function Ranks(fen: string): seq<string> {
    Split(Fields(fen)[0], '/')
  }

  /** A text `LoadFen` ignores, leaving the board as it was: shorter than 15 characters, or
      a placement field that is not eight ranks. */
  predicate Ignored(fen: string) {
    |fen| < 15 || |Ranks(fen)| != 8
  }

  /** The en-passant field is there and reading it as a square name throws. */
  predicate EnpassantThrows(fen: string) {
    |Fields(fen)| > 3 && UniversalChessInterface.GetSquareFromUci(Fields(fen)[3]).Throws?
  }

  /** The castling rights of the first `n` letters of `KQkq`: bit `i` for each letter the
      field contains. */
  function RightsFrom(field: string, n: nat): nat
    requires n <= 4
  {
    if n == 0 then 0
    else if FullCastlings[n - 1] in field then OrBits(RightsFrom(field, n - 1), Pow2(n - 1))
    else RightsFrom(field, n - 1)
  }

  function CastlingRights(field: string): nat {
    RightsFrom(field, 4)
  }

  /** Bit `i` of the rights is set exactly when the field holds letter `i` of `KQkq`
      (white kingside, white queenside, black kingside, black queenside), and no other bit is. */
  lemma {:induction false} RightsRead(field: string, n: nat)
    requires n <= 4
    ensures forall k: nat :: BitOf(RightsFrom(field, n), k) <==> k < n && FullCastlings[k] in field
    ensures RightsFrom(field, n) < Pow2(n)
  {
    if n == 0 {
      forall k: nat
        ensures !BitOf(0, k)
      {
        ZeroBits(k);
      }
    } else {
      RightsRead(field, n - 1);
      var r := RightsFrom(field, n - 1);
      forall k: nat
        ensures BitOf(RightsFrom(field, n), k) <==> k < n && FullCastlings[k] in field
      {
        OrBitAt(r, Pow2(n - 1), k);
        BitOfPow2(n - 1, k);
      }
      BitsBelow(RightsFrom(field, n), n);
    }
  }

  /** Lines 28-34: the rights start empty, and each letter of `KQkq` the field holds sets
      its bit. */
  method ReadCastlings(field: string) returns (castlings: int)
    ensures castlings == CastlingRights(field)
    ensures 0 <= castlings < 16
    ensures forall i | 0 <= i < 4 :: BitOf(castlings, i) <==> FullCastlings[i] in field
  {
    castlings := Flags.None;
    for castling := 0 to 4
      invariant castlings == RightsFrom(field, castling)
    {
      if FullCastlings[castling] in field {
        castlings := OrBits(castlings, Pow2(castling));
      }
    }
    RightsRead(field, 4);
    assert Pow2(4) == 16;
  }

  // ------------------------------------------------------------ the placement

  /** One piece the placement loop puts down: the square it computes and the piece code. */
  datatype Placement = Placement(square: nat, piece: nat)

  /** `((7 - rank) << 3) | file`: the eighth rank comes first, the file is or-ed into the
      low bits (so a file past 7 runs into the rank bits). */
  function SquareOf(rank: nat, file: nat): nat
    requires rank < 8
  {
    OrBits((7 - rank) * 8, file)
  }

  /** The file the loop has reached after `row`: a digit skips that many files, any other
      character takes one. */
  function FileAfter(row: string): nat {
    if row == [] then 0
    else FileAfter(row[..|row| - 1]) + (if IsDigit(row[|row| - 1]) then DigitValue(row[|row| - 1]) else 1)
  }

  /** The pieces one rank's text puts down, in order. */
  function RankPlacements(rank: nat, row: string): seq<Placement>
    requires rank < 8
  {
    if row == [] then []
    else
      var init := row[..|row| - 1];
      var c := row[|row| - 1];
      RankPlacements(rank, init) +
        if IsDigit(c) then [] else [Placement(SquareOf(rank, FileAfter(init)), Piece.GetPiece(c))]
  }

  /** The pieces the first `n` ranks put down, in order. */
  function Placements(ranks: seq<string>, n: nat): seq<Placement>
    requires n <= |ranks| && n <= 8
  {
    if n == 0 then [] else Placements(ranks, n - 1) + RankPlacements(n - 1, ranks[n - 1])
  }

  /** Every placement is on a square of the board, so none of the writes throws. */
  predicate OnBoard(ws: seq<Placement>) {
    forall i | 0 <= i < |ws| :: IsSquare(ws[i].square) && ws[i].piece < 16
  }

  /** The placement field puts a piece off the board: the mailbox write throws. */
  predicate PlacementThrows(fen: string)
    requires !Ignored(fen)
  {
    !OnBoard(Placements(Ranks(fen), 8))
  }

  /** The mailbox after the writes, starting from the empty board: each square holds the
      last piece put on it. */
  function MailboxOf(ws: seq<Placement>): (squares: seq<int>)
    requires OnBoard(ws)
    ensures Zobrist.IsMailbox(squares)
  {
    if ws == [] then EmptyPosition(0).squares
    else
      var w := ws[|ws| - 1];
      MailboxOf(ws[..|ws| - 1])[w.square := w.piece]
  }

  /** The piece bitboards after the writes: each piece's board gains the bit of each of its squares. */
  function PieceBoardsOf(ws: seq<Placement>): (pieces: seq<ulong>)
    requires OnBoard(ws)
    ensures |pieces| == 16
  {
    if ws == [] then EmptyPosition(0).pieces
    else
      var w := ws[|ws| - 1];
      var pieces := PieceBoardsOf(ws[..|ws| - 1]);
      pieces[w.piece := UOr(pieces[w.piece], UShl(1, w.square))]
  }

  /** The colour bitboards after the writes. */
  function ColourBoardsOf(ws: seq<Placement>): (byColour: seq<ulong>)
    requires OnBoard(ws)
    ensures |byColour| == 2
  {
    if ws == [] then EmptyPosition(0).byColour
    else
      var w := ws[|ws| - 1];
      var byColour := ColourBoardsOf(ws[..|ws| - 1]);
      var c := Piece.ColourIndex(w.piece);
      byColour[c := UOr(byColour[c], UShl(1, w.square))]
  }

  /** The king squares after the writes: the square of the last king of each colour put
      down, or -1. */
  function KingsOf(ws: seq<Placement>): (kings: seq<int>)
    requires OnBoard(ws)
    ensures |kings| == 2 && KingsPlaced(kings)
  {
    if ws == [] then EmptyPosition(0).kings
    else
      var w := ws[|ws| - 1];
      var kings := KingsOf(ws[..|ws| - 1]);
      if Piece.Type(w.piece) == Piece.King then kings[Piece.ColourIndex(w.piece) := w.square] else kings
  }

  /** The four arrays hold what the writes `ws` leave in them. */
  ghost predicate Holds(squares: array<int>, kings: array<int>, pieces: array<ulong>, byColour: array<ulong>,
    ws: seq<Placement>)
    requires OnBoard(ws)
    reads squares, kings, pieces, byColour
  {
    squares[..] == MailboxOf(ws) && kings[..] == KingsOf(ws) &&
    pieces[..] == PieceBoardsOf(ws) && byColour[..] == ColourBoardsOf(ws)
  }

  /** No two writes name the same square. */
  predicate DistinctSquares(ws: seq<Placement>) {
    forall i, j | 0 <= i < j < |ws| :: ws[i].square != ws[j].square
  }

  /** Every write puts down a piece, not a code `Piece.IsEmpty` calls empty (an unknown
      letter reads as 0). */
  predicate RealPieces(ws: seq<Placement>) {
    forall i | 0 <= i < |ws| :: !Piece.IsEmpty(ws[i].piece)
  }

  /** A square no write names keeps the empty code of the emptied board. */
  lemma {:induction false} Untouched(ws: seq<Placement>, t: nat)
    requires OnBoard(ws) && t < 64
    requires forall i | 0 <= i < |ws| :: ws[i].square != t
    ensures MailboxOf(ws)[t] == Piece.None
  {
    if ws != [] {
      var init := ws[..|ws| - 1];
      assert OnBoard(init);
      Untouched(init, t);
    }
  }

  /** Writes of real pieces to distinct squares leave the mailbox, the piece bitboards and
      the colour bitboards describing the same pieces. An unknown letter (code 0) or two
      writes to one square would not: the bitboards would keep a bit the mailbox has lost. */
  lemma {:induction false} WritesAgree(ws: seq<Placement>)
    requires OnBoard(ws) && DistinctSquares(ws) && RealPieces(ws)
    ensures PiecesAgree(MailboxOf(ws), PieceBoardsOf(ws))
    ensures ColoursAgree(MailboxOf(ws), ColourBoardsOf(ws))
  {
    Piece.PieceClasses(Piece.None);
    if ws == [] {
      forall t: nat
        ensures !BitOf(0, t)
      {
        ZeroBits(t);
      }
    } else {
      var init, w := ws[..|ws| - 1], ws[|ws| - 1];
      assert OnBoard(init) && DistinctSquares(init) && RealPieces(init);
      WritesAgree(init);
      Untouched(init, w.square);
      SingleSquare(w.square);
      var squares, pieces, byColour := MailboxOf(init), PieceBoardsOf(init), ColourBoardsOf(init);
      forall k, t | 0 <= k < 16 && 0 <= t < 64 && !Piece.IsEmpty(k)
        ensures BitOf(PieceBoardsOf(ws)[k], t) == (MailboxOf(ws)[t] == k)
      {
        UOrAt(pieces[k], UShl(1, w.square), t);
      }
      forall c, t | 0 <= c < 2 && 0 <= t < 64
        ensures BitOf(ColourBoardsOf(ws)[c], t) == OfColour(MailboxOf(ws)[t], c)
      {
        UOrAt(byColour[c], UShl(1, w.square), t);
      }
    }
  }

  /** A rank's pieces are in order: those of a prefix of its text come first. */
  lemma {:induction false} RankPrefix(rank: nat, row: string, j: nat)
    requires rank < 8 && j <= |row|
    ensures RankPlacements(rank, row[..j]) <= RankPlacements(rank, row)
    decreases |row|
  {
    if j < |row| {
      RankPrefix(rank, row[..|row| - 1], j);
      assert row[..|row| - 1][..j] == row[..j];
    } else {
      assert row[..j] == row;
    }
  }

  /** So are the ranks'. */
  lemma {:induction false} PlacementsPrefix(ranks: seq<string>, m: nat, n: nat)
    requires m <= n <= |ranks| && n <= 8
    ensures Placements(ranks, m) <= Placements(ranks, n)
    decreases n
  {
    if m < n {
      PlacementsPrefix(ranks, m, n - 1);
    }
  }

  /** A piece off the board among the first ranks' stays among all eight ranks'. */
  lemma OffBoardStays(ranks: seq<string>, n: nat)
    requires n <= 8 && |ranks| == 8 && !OnBoard(Placements(ranks, n))
    ensures !OnBoard(Placements(ranks, 8))
  {
    PlacementsPrefix(ranks, n, 8);
    var i :| 0 <= i < |Placements(ranks, n)| &&
      !(IsSquare(Placements(ranks, n)[i].square) && Placements(ranks, n)[i].piece < 16);
    assert Placements(ranks, 8)[i] == Placements(ranks, n)[i];
  }

  /** One more character of a rank's text: a digit puts nothing down, any other character
      puts its piece on the square of the file reached so far. */
  lemma RankStep(rank: nat, row: string, j: nat)
    requires rank < 8 && j < |row|
    ensures FileAfter(row[..j + 1]) == FileAfter(row[..j]) + if IsDigit(row[j]) then DigitValue(row[j]) else 1
    ensures RankPlacements(rank, row[..j + 1]) == RankPlacements(rank, row[..j]) +
      if IsDigit(row[j]) then [] else [Placement(SquareOf(rank, FileAfter(row[..j])), Piece.GetPiece(row[j]))]
  {
    assert row[..j + 1][..j] == row[..j];
  }

  /** The writes of one placement (lines 67-74): the mailbox, the piece and colour
      bitboards, and the king square for a king. */
  method Put(squares: array<int>, kings: array<int>, pieces: array<ulong>, byColour: array<ulong>,
    square: nat, piece: nat, ghost ws: seq<Placement>)
    requires squares.Length == 64 && kings.Length == 2 && pieces.Length == 16 && byColour.Length == 2
    requires squares != kings && pieces != byColour
    requires IsSquare(square) && piece < 16
    requires OnBoard(ws) && Holds(squares, kings, pieces, byColour, ws)
    modifies squares, kings, pieces, byColour
    ensures OnBoard(ws + [Placement(square, piece)])
    ensures Holds(squares, kings, pieces, byColour, ws + [Placement(square, piece)])
  {
    var kind := Piece.Type(piece);
    var colourIndex := Piece.ColourIndex(piece);
    squares[square] := piece;
    var bitboard := UShl(1, square);
    pieces[piece] := UOr(pieces[piece], bitboard);
    byColour[colourIndex] := UOr(byColour[colourIndex], bitboard);
    if kind == Piece.King {
      kings[colourIndex] := square;
    }
    assert (ws + [Placement(square, piece)])[..|ws|] == ws;
  }

  /** Lines 56-75 for the character at `j` of a rank's text: a digit moves the file on by
      its value; any other character puts the piece it names on `((7 - rank) << 3) | file`
      and moves on one file. The result is false when that square is off the board (the
      mailbox write throws). */
  method PlaceChar(squares: array<int>, kings: array<int>, pieces: array<ulong>, byColour: array<ulong>,
    rank: nat, row: string, j: nat, file: nat, ghost before: seq<Placement>) returns (placed: bool, next: nat)
    requires rank < 8 && j < |row| && file == FileAfter(row[..j])
    requires squares.Length == 64 && kings.Length == 2 && pieces.Length == 16 && byColour.Length == 2
    requires squares != kings && pieces != byColour
    requires OnBoard(before + RankPlacements(rank, row[..j]))
    requires Holds(squares, kings, pieces, byColour, before + RankPlacements(rank, row[..j]))
    modifies squares, kings, pieces, byColour
    ensures !placed ==> !OnBoard(before + RankPlacements(rank, row))
    ensures placed ==> next == FileAfter(row[..j + 1]) && OnBoard(before + RankPlacements(rank, row[..j + 1]))
    ensures placed ==> Holds(squares, kings, pieces, byColour, before + RankPlacements(rank, row[..j + 1]))
  {
    var c := row[j];
    RankStep(rank, row, j);
    ghost var ws := before + RankPlacements(rank, row[..j]);
    if IsDigit(c) {
      next := file + (c as int - '0' as int);
      assert before + RankPlacements(rank, row[..j + 1]) == ws;
      return true, next;
    }
    var square := OrBits((7 - rank) * 8, file);
    var piece := Piece.GetPiece(c);
    assert before + RankPlacements(rank, row[..j + 1]) == ws + [Placement(square, piece)];
    if square >= 64 {
      RankPrefix(rank, row, j + 1);
      assert (before + RankPlacements(rank, row))[|ws|] == Placement(square, piece);
      return false, file;
    }
    Put(squares, kings, pieces, byColour, square, piece, ws);
    placed, next := true, file + 1;
  }

  /** Lines 53-76 for one rank, character by character. The result is false when a write
      falls off the board. */
  method PlaceRank(squares: array<int>, kings: array<int>, pieces: array<ulong>, byColour: array<ulong>,
    rank: nat, row: string, ghost before: seq<Placement>) returns (placed: bool)
    requires rank < 8
    requires squares.Length == 64 && kings.Length == 2 && pieces.Length == 16 && byColour.Length == 2
    requires squares != kings && pieces != byColour
    requires OnBoard(before) && Holds(squares, kings, pieces, byColour, before)
    modifies squares, kings, pieces, byColour
    ensures placed <==> OnBoard(before + RankPlacements(rank, row))
    ensures placed ==> Holds(squares, kings, pieces, byColour, before + RankPlacements(rank, row))
  {
    var file := 0;
    assert before + RankPlacements(rank, row[..0]) == before by {
      assert row[..0] == [];
    }
    for j := 0 to |row|
      invariant file == FileAfter(row[..j])
      invariant OnBoard(before + RankPlacements(rank, row[..j]))
      invariant Holds(squares, kings, pieces, byColour, before + RankPlacements(rank, row[..j]))
    {
      placed, file := PlaceChar(squares, kings, pieces, byColour, rank, row, j, file, before);
      if !placed {
        return;
      }
    }
    assert row[..|row|] == row;
    placed := true;
  }

  /** Lines 51-77: the eight ranks, the eighth first. */
  method Place(squares: array<int>, kings: array<int>, pieces: array<ulong>, byColour: array<ulong>,
    ranks: seq<string>) returns (placed: bool)
    requires |ranks| == 8
    requires squares.Length == 64 && kings.Length == 2 && pieces.Length == 16 && byColour.Length == 2
    requires squares != kings && pieces != byColour
    requires Holds(squares, kings, pieces, byColour, [])
    modifies squares, kings, pieces, byColour
    ensures placed <==> OnBoard(Placements(ranks, 8))
    ensures placed ==> Holds(squares, kings, pieces, byColour, Placements(ranks, 8))
  {
    for rank := 0 to 8
      invariant OnBoard(Placements(ranks, rank))
      invariant Holds(squares, kings, pieces, byColour, Placements(ranks, rank))
    {
      placed := PlaceRank(squares, kings, pieces, byColour, rank, ranks[rank], Placements(ranks, rank));
      assert Placements(ranks, rank + 1) == Placements(ranks, rank) + RankPlacements(rank, ranks[rank]);
      if !placed {
        OffBoardStays(ranks, rank + 1);
        return;
      }
    }
    placed := true;
  }

  // ------------------------------------------------------------ loading

  /** White is to move unless the second field is "b". */
  function WhiteToMoveOf(fields: seq<string>): bool {
    |fields| <= 1 || fields[1] != "b"
  }

  /** The colour code of the side to move. */
  function ColourOf(whiteToMove: bool): int {
    if whiteToMove then Piece.White else Piece.Black
  }

  /** The castling rights of the third field, none without one. */
  function CastlingsOf(fields: seq<string>): (castlings: nat)
    ensures castlings < 16
  {
    RightsRead(if |fields| > 2 then fields[2] else "", 4);
    assert Pow2(4) == 16;
    if |fields| > 2 then CastlingRights(fields[2]) else Flags.None
  }

  /** The en-passant square of the fourth field, -1 without one. */
  function EnpassantOf(fields: seq<string>): int32
    requires !(|fields| > 3 && UniversalChessInterface.GetSquareFromUci(fields[3]).Throws?)
  {
    if |fields| > 3 then UniversalChessInterface.GetSquareFromUci(fields[3]).value as int32 else -1
  }

  /** A move counter: field `i` where it parses as an `int`, 0 otherwise. */
  function CounterOf(fields: seq<string>, i: nat): int32 {
    if |fields| > i && TryParse(fields[i]).Some? then TryParse(fields[i]).value else 0
  }

  /** The position `LoadFen` loads from a text it does not ignore and that does not throw:
      the empty board of `Reset` with the placement's pieces, the side to move, the castling
      rights, the en-passant square and the two counters. */
  ghost function Loaded(fen: string): (p: Position)
    requires !Ignored(fen) && !EnpassantThrows(fen) && !PlacementThrows(fen)
    ensures Consistent(p)
  {
    var fields := Fields(fen);
    var ws := Placements(Ranks(fen), 8);
    var byColour := ColourBoardsOf(ws);
    var colour := ColourOf(WhiteToMoveOf(fields));
    Position(MailboxOf(ws), KingsOf(ws), PieceBoardsOf(ws), byColour, UOr(byColour[0], byColour[1]),
      WhiteToMoveOf(fields), colour, colour / 8, CastlingsOf(fields), EnpassantOf(fields),
      CounterOf(fields, 4), CounterOf(fields, 5))
  }

  /** The placement field puts real pieces on distinct squares. */
  predicate WellPlaced(fen: string)
    requires !Ignored(fen) && !PlacementThrows(fen)
  {
    DistinctSquares(Placements(Ranks(fen), 8)) && RealPieces(Placements(Ranks(fen), 8))
  }

  /** Lines 63-71 write each piece into the mailbox, its piece bitboard and its colour
      bitboard; when the placement field names real pieces on distinct squares, the three
      views of the loaded position describe the same pieces. */
  lemma LoadedAgrees(fen: string)
    requires !Ignored(fen) && !EnpassantThrows(fen) && !PlacementThrows(fen) && WellPlaced(fen)
    ensures Agrees(Loaded(fen))
  {
    WritesAgree(Placements(Ranks(fen), 8));
  }

  /** Lines 21-26: the side to move, when the field is there; White, as `Reset` leaves
      it, otherwise. */
  method ReadSide(fields: seq<string>) returns (whiteToMove: bool, colourToMove: int, friendlyIndex: int)
    ensures whiteToMove <==> |fields| <= 1 || fields[1] != "b"
    ensures colourToMove == (if whiteToMove then Piece.White else Piece.Black)
    ensures friendlyIndex == (if whiteToMove then 0 else 1)
  {
    whiteToMove, colourToMove, friendlyIndex := true, Piece.White, 0;
    if |fields| > 1 {
      whiteToMove := fields[1] != "b";
      colourToMove := if whiteToMove then Piece.White else Piece.Black;
      friendlyIndex := colourToMove / 8;
    }
  }

  /** Lines 28-39: the castling rights (none without the field), then the en-passant
      square (-1 without the field), which throws when the field does not read as a square
      name. */
  method ReadRights(fields: seq<string>) returns (outcome: Outcome<()>, castlings: int, enpassantSquare: int32)
    ensures outcome.Throws? <==> |fields| > 3 && UniversalChessInterface.GetSquareFromUci(fields[3]).Throws?
    ensures outcome.Throws? ==> outcome.error == IndexOutOfRange
    ensures castlings == CastlingsOf(fields) && 0 <= castlings < 16
    ensures outcome.Returns? ==> enpassantSquare == EnpassantOf(fields)
    ensures outcome.Returns? && |fields| > 3 ==>
      UniversalChessInterface.GetSquareFromUci(fields[3]) == Returns(enpassantSquare as int)
  {
    castlings, enpassantSquare := Flags.None, -1;
    if |fields| > 2 {
      castlings := ReadCastlings(fields[2]);
    }
    if |fields| > 3 {
      var enpassant := UniversalChessInterface.GetSquareFromUci(fields[3]);
      if enpassant.Throws? {
        return Throws(enpassant.error), castlings, enpassantSquare;
      }
      enpassantSquare := enpassant.value as int32;
    }
    outcome := Returns(());
  }

  /** Lines 41-49: each counter is read where the field is there and parses as an `int`,
      and stays 0, as `Reset` leaves it, otherwise. */
  method ReadCounters(fields: seq<string>) returns (halfMoves: int32, fullMoves: int32)
    ensures |fields| > 4 && TryParse(fields[4]).Some? ==> halfMoves == TryParse(fields[4]).value
    ensures |fields| > 5 && TryParse(fields[5]).Some? ==> fullMoves == TryParse(fields[5]).value
    ensures !(|fields| > 4 && TryParse(fields[4]).Some?) ==> halfMoves == 0
    ensures !(|fields| > 5 && TryParse(fields[5]).Some?) ==> fullMoves == 0
  {
    halfMoves, fullMoves := 0, 0;
    if |fields| > 4 && TryParse(fields[4]).Some? {
      halfMoves := TryParse(fields[4]).value;
    }
    if |fields| > 5 && TryParse(fields[5]).Some? {
      fullMoves := TryParse(fields[5]).value;
    }
  }

  /** Lines 79-81: the occupied set, the attack map and the key of the pieces put down. */
  method Finish(board: Board)
    requires board.Arrays() && board.tables.Valid() && board.keys.Valid()
    requires Shaped(board.State()) && KingsPlaced(board.Kings[..])
    modifies board`OccupiedSquares, board`OpponentAttacks, board`PositionKey
    ensures board.OccupiedSquares == UOr(board.PiecesByColour[0], board.PiecesByColour[1])
    ensures board.Valid() && board.PositionKey == board.Key()
  {
    board.OccupiedSquares := UOr(board.PiecesByColour[0], board.PiecesByColour[1]);
    board.OpponentAttacks :=
      Attacks.GenerateOpponentAttacks(board.tables, board.Pieces, board.OccupiedSquares, board.ColourToMove);
    board.PositionKey := Zobrist.Create(board.keys, board.Squares, board.EnpassantSquare, board.WhiteToMove, board.Castlings);
  }

  /** The scalar fields of the board hold what the header fields give. */
  ghost predicate Header(board: Board, fields: seq<string>)
    reads board`WhiteToMove, board`ColourToMove, board`FriendlyColourIndex, board`Castlings,
      board`EnpassantSquare, board`HalfMoveCount, board`FullMoveCount
  {
    board.WhiteToMove == WhiteToMoveOf(fields) && board.ColourToMove == ColourOf(board.WhiteToMove) &&
    board.FriendlyColourIndex == board.ColourToMove / 8 && board.Castlings == CastlingsOf(fields) &&
    !(|fields| > 3 && UniversalChessInterface.GetSquareFromUci(fields[3]).Throws?) &&
    board.EnpassantSquare == EnpassantOf(fields) &&
    board.HalfMoveCount == CounterOf(fields, 4) && board.FullMoveCount == CounterOf(fields, 5)
  }

  /** Once the header is read and the pieces are down, the board is well formed. */
  lemma HeaderShaped(board: Board, fields: seq<string>, ws: seq<Placement>)
    requires board.Arrays() && OnBoard(ws)
    requires Holds(board.Squares, board.Kings, board.Pieces, board.PiecesByColour, ws) && Header(board, fields)
    ensures Shaped(board.State()) && KingsPlaced(board.Kings[..])
  {
  }

  /** ... and, with the occupied set filled in, it holds `Loaded(fen)`. */
  lemma LoadedBoard(board: Board, fen: string)
    requires !Ignored(fen) && !EnpassantThrows(fen) && !PlacementThrows(fen)
    requires board.Arrays()
    requires Holds(board.Squares, board.Kings, board.Pieces, board.PiecesByColour, Placements(Ranks(fen), 8))
    requires Header(board, Fields(fen))
    requires board.OccupiedSquares == UOr(board.PiecesByColour[0], board.PiecesByColour[1])
    ensures board.State() == Loaded(fen)
  {
  }

  /** Line 19: `Reset` leaves the empty board, its fields as the placement and the header
      reads expect to find them. */
  method ResetBoard(board: Board)
    requires board.tables.Valid() && board.keys.Valid()
    modifies board
    ensures fresh(board.Squares) && fresh(board.Kings) && fresh(board.Pieces) && fresh(board.PiecesByColour)
    ensures board.Arrays() && board.History == []
    ensures Holds(board.Squares, board.Kings, board.Pieces, board.PiecesByColour, [])
    ensures board.WhiteToMove && board.ColourToMove == Piece.White && board.FriendlyColourIndex == 0
    ensures board.Castlings == Flags.None && board.EnpassantSquare == -1
    ensures board.HalfMoveCount == 0 && board.FullMoveCount == 0
  {
    board.Reset();
  }

  /** Lines 21-49: the header fields written into the board, in the source's order; reading
      the en-passant field may throw, after the side and the castling rights are written. */
  method ReadHeader(board: Board, fields: seq<string>) returns (outcome: Outcome<()>)
    modifies board`WhiteToMove, board`ColourToMove, board`FriendlyColourIndex, board`Castlings,
      board`EnpassantSquare, board`HalfMoveCount, board`FullMoveCount
    ensures outcome.Throws? <==> |fields| > 3 && UniversalChessInterface.GetSquareFromUci(fields[3]).Throws?
    ensures outcome.Throws? ==> outcome.error == IndexOutOfRange
    ensures outcome.Returns? ==> Header(board, fields)
  {
    var whiteToMove, colourToMove, friendlyIndex := ReadSide(fields);
    board.WhiteToMove, board.ColourToMove, board.FriendlyColourIndex := whiteToMove, colourToMove, friendlyIndex;
    var castlings, enpassantSquare;
    outcome, castlings, enpassantSquare := ReadRights(fields);
    board.Castlings := castlings;
    if outcome.Throws? {
      return;
    }
    board.EnpassantSquare := enpassantSquare;
    var halfMoves, fullMoves := ReadCounters(fields);
    board.HalfMoveCount, board.FullMoveCount := halfMoves, fullMoves;
  }

  /** Lines 19-49: the board is emptied and the header fields are read into it. */
  method Start(board: Board, fen: string) returns (outcome: Outcome<()>)
    requires board.tables.Valid() && board.keys.Valid() && !Ignored(fen)
    modifies board
    ensures outcome.Throws? <==> EnpassantThrows(fen)
    ensures outcome.Throws? ==> outcome.error == IndexOutOfRange
    ensures board.Arrays() && board.History == []
    ensures fresh(board.Squares) && fresh(board.Kings) && fresh(board.Pieces) && fresh(board.PiecesByColour)
    ensures Holds(board.Squares, board.Kings, board.Pieces, board.PiecesByColour, [])
    ensures outcome.Returns? ==> Header(board, Fields(fen))
  {
    ResetBoard(board);
    outcome := ReadHeader(board, Fields(fen));
  }

  /** Lines 51-81 on the emptied board whose header is read: the pieces are put down, then
      the occupied set, the attack map and the key are filled in. The result is false when a
      write falls off the board. */
  method LoadPieces(board: Board, fen: string, ranks: seq<string>) returns (placed: bool)
    requires !Ignored(fen) && ranks == Ranks(fen)
    requires board.Arrays() && board.tables.Valid() && board.keys.Valid()
    requires Holds(board.Squares, board.Kings, board.Pieces, board.PiecesByColour, [])
    requires Header(board, Fields(fen))
    modifies board.Squares, board.Kings, board.Pieces, board.PiecesByColour
    modifies board`OccupiedSquares, board`OpponentAttacks, board`PositionKey
    ensures placed <==> !PlacementThrows(fen)
    ensures placed ==> board.Valid() && board.State() == Loaded(fen) && board.PositionKey == board.Key()
  {
    placed := Place(board.Squares, board.Kings, board.Pieces, board.PiecesByColour, ranks);
    if !placed {
      return;
    }
    HeaderShaped(board, Fields(fen), Placements(ranks, 8));
    Finish(board);
    LoadedBoard(board, fen);
  }

  /** Lines 19-81, once the text has passed the two checks. Reading the en-passant field or
      writing a piece off the board throws; otherwise the board holds `Loaded(fen)` with its
      attack map and key recomputed and an empty history. */
  method Load(board: Board, fen: string) returns (outcome: Outcome<()>)
    requires board.tables.Valid() && board.keys.Valid() && !Ignored(fen)
    modifies board
    ensures outcome.Throws? <==> EnpassantThrows(fen) || PlacementThrows(fen)
    ensures outcome.Throws? ==> outcome.error == IndexOutOfRange
    ensures outcome.Returns? ==>
      board.Valid() && board.State() == Loaded(fen) && board.History == [] && board.PositionKey == board.Key()
    ensures outcome.Returns? && WellPlaced(fen) ==> Agrees(board.State())
  {
    outcome := Start(board, fen);
    if outcome.Throws? {
      return;
    }
    var placed := LoadPieces(board, fen, Ranks(fen));
    if !placed {
      return Throws(IndexOutOfRange);
    }
    if WellPlaced(fen) {
      LoadedAgrees(fen);
    }
  }

  /** `LoadFen`: a text that is too short or whose placement is not eight ranks leaves the
      board alone; any other text is loaded as `Load` does. */
  method LoadFen(board: Board, fen: string) returns (outcome: Outcome<()>)
    requires board.Valid()
    modifies board
    ensures Ignored(fen) ==> outcome == Returns(()) && unchanged(board)
    ensures outcome.Throws? <==> !Ignored(fen) && (EnpassantThrows(fen) || PlacementThrows(fen))
    ensures outcome.Throws? ==> outcome.error == IndexOutOfRange
    ensures outcome.Returns? && !Ignored(fen) ==>
      board.Valid() && board.State() == Loaded(fen) && board.History == [] && board.PositionKey == board.Key()
    ensures outcome.Returns? && !Ignored(fen) && WellPlaced(fen) ==> Agrees(board.State())
  {
    if |fen| < 15 {
      return Returns(());
    }
    var fields := Split(fen, ' ');
    var ranks := Split(fields[0], '/');
    if |ranks| != 8 {
      return Returns(());
    }
    outcome := Load(board, fen);
  }
}
