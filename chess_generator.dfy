// The move generator of the chess engine (ConsoleApp/Chess/MoveGenerator.cs, GenerateMoves
// and the four per-piece generators).
//
// The generator reads the board: its mailbox, its colour bitboards, its occupied squares,
// its attack map, its rights and its en-passant square, and the move tables. Each generator
// is proved against a description in board geometry of the moves it yields: which target
// squares, with which flag, naming which captured piece.

module MoveGenerator {
  import opened CSharp
  import opened ULong
  import opened Bitboard
  import opened PrecomputedMoveData
  import Piece
  import Flags
  import MoveFlags
  import opened Moves
  import Attacks
  import Zobrist
  import opened ChessBoard
  import UniversalChessInterface

  // ------------------------------------------------------------ the moves made

  /** `m` takes `piece` from `s` to `t`, names `taken` as the piece standing on `t`, and
      carries `flag`. */
  predicate Goes(m: Move, s: int, t: int, piece: int, taken: int, flag: int) {
    Start(m) == s && End(m) == t && Mover(m) == piece && Taken(m) == taken && m.Flag == flag
  }

  /** `new Move(s, t, piece, taken, flag)` gives its fields back. */
  lemma Built(s: int, t: int, piece: int, taken: int, flag: byte)
    requires IsSquare(s) && IsSquare(t) && 0 <= piece < 16 && 0 <= taken < 16
    ensures Goes(NewMove(s as int32, t as int32, piece as int32, taken as int32, flag), s, t, piece, taken, flag)
  {
    PackRoundTrip(s as int32, t as int32, piece as int32, taken as int32, flag);
  }

  /** Some move of `moves` goes from `s` to `t` with flag `flag`. */
  predicate Lands(moves: seq<Move>, s: int, t: int, flag: int) {
    exists m :: m in moves && Start(m) == s && End(m) == t && m.Flag == flag
  }

  /** A move without a flag of `piece` from `s`, naming the piece on its target square. */
  predicate Stepping(m: Move, s: int, piece: int, squares: seq<int>)
    requires |squares| == 64
  {
    Start(m) == s && Mover(m) == piece && Taken(m) == squares[End(m)] && m.Flag == MoveFlags.None
  }

  /** The facts of the board invariant the generator reads. */
  lemma Readable(board: Board)
    requires board.Valid()
    ensures board.Squares.Length == 64 && board.PiecesByColour.Length == 2 && board.Pieces.Length == 16
    ensures board.Kings.Length == 2 && board.tables.Valid()
    ensures Zobrist.IsMailbox(board.Squares[..])
    ensures board.ColourToMove == Piece.White || board.ColourToMove == Piece.Black
    ensures board.WhiteToMove == (board.ColourToMove == Piece.White)
    ensures board.FriendlyColourIndex == board.ColourToMove / 8
    ensures 0 <= board.FriendlyColourIndex < 2 && 0 <= board.Castlings < 16
    ensures board.OccupiedSquares == UOr(board.PiecesByColour[0], board.PiecesByColour[1])
    ensures KingsPlaced(board.Kings[..])
    ensures forall t: nat :: BitOf(board.OpponentAttacks, t) <==> Threatened(board.State(), t)
  {
    var p := board.State();
    assert Consistent(p);
  }

  /** The other side attacks `t`. */
  ghost predicate Threatened(p: Position, t: int)
    requires Shaped(p)
  {
    Attacks.Attacked(p.pieces, p.occupied, Piece.OpponentOf(p.colourToMove), t)
  }

  /** `t` holds a piece of the side to move. */
  predicate Friendly(p: Position, t: nat)
    requires Shaped(p)
  {
    BitOf(p.byColour[p.friendlyIndex], t)
  }

  // ---------------------------------------------------------- the dispatch

  /** The moves the generator yields for `piece` on `s`, by the piece's type: nothing for a
      piece of the other side or an empty square; for a pawn its pushes and captures; for the
      king its safe steps and its castlings; for a knight its jumps; for a bishop, rook or
      queen the squares it slides to along the diagonals, the lines, or both. No step and
      no slide lands on a piece of the side to move. */
  ghost predicate Generated(p: Position, piece: int, s: int, t: nat, f: int)
    requires Shaped(p) && IsSquare(s) && 0 <= piece < 16
  {
    var kind, c := Piece.Type(piece), p.friendlyIndex;
    if piece / 8 != c then false
    else if kind == Piece.Pawn then
      PushGoes(p.occupied, c, s, t, f) || CaptureGoes(p.byColour[Piece.OtherIndex(c)], p.enpassant, c, s, t, f)
    else if kind == Piece.King then
      (f == MoveFlags.None && KingStep(s, t) && !Friendly(p, t) && !Threatened(p, t)) ||
      (exists kingside: bool ::
        f == CastlingFlag(kingside) && t == End(CastlingMove(s, piece, kingside)) && MayCastle(p, s, kingside))
    else if kind == Piece.Knight then f == MoveFlags.None && KnightJump(s, t) && !Friendly(p, t)
    else if kind == Piece.Bishop then f == MoveFlags.None && Attacks.SlidesTo(s, 4, 8, t, p.occupied) && !Friendly(p, t)
    else if kind == Piece.Rook then f == MoveFlags.None && Attacks.SlidesTo(s, 0, 4, t, p.occupied) && !Friendly(p, t)
    else if kind == Piece.Queen then f == MoveFlags.None && Attacks.SlidesTo(s, 0, 8, t, p.occupied) && !Friendly(p, t)
    else false
  }

  /** No generated move lands on a piece of the side to move, in a position whose mailbox
      and bitboards agree, whose en-passant square (if any) is a square without such a
      piece, and, for a castling, whose king stands on its starting square. */
  lemma NoFriendlyLanding(p: Position, piece: int, s: int, t: nat, f: int)
    requires Consistent(p) && Agrees(p) && IsSquare(s) && 0 <= piece < 16
    requires p.enpassant == -1 || (IsSquare(p.enpassant as int) && !Friendly(p, p.enpassant as int))
    requires f == CastlingFlag(true) || f == CastlingFlag(false) ==> s == if p.whiteToMove then 4 else 60
    requires Generated(p, piece, s, t, f)
    ensures !Friendly(p, t)
  {
    var kind := Piece.Type(piece);
    if kind == Piece.Pawn {
      PawnLandsFree(p, s, t, f);
    } else if kind == Piece.King && f != MoveFlags.None {
      var kingside :| f == CastlingFlag(kingside) && t == End(CastlingMove(s, piece, kingside)) && MayCastle(p, s, kingside);
      CastlingLandsFree(p, piece, s, t, kingside);
    }
  }

  /** A pawn's push lands on an empty square, its capture on a piece of the other side or on
      the en-passant square. */
  lemma PawnLandsFree(p: Position, s: int, t: nat, f: int)
    requires Consistent(p) && Agrees(p) && IsSquare(s)
    requires p.enpassant == -1 || (IsSquare(p.enpassant as int) && !Friendly(p, p.enpassant as int))
    requires var c := p.friendlyIndex;
      PushGoes(p.occupied, c, s, t, f) || CaptureGoes(p.byColour[Piece.OtherIndex(c)], p.enpassant, c, s, t, f)
    ensures !Friendly(p, t)
  {
    var c := p.friendlyIndex;
    var opponents := p.byColour[Piece.OtherIndex(c)];
    if PushGoes(p.occupied, c, s, t, f) {
      assert !BitOf(p.occupied, t);
      UOrAt(p.byColour[0], p.byColour[1], t);
    } else if BitOf(opponents, t) {
      assert IsSquare(t);
      assert OfColour(p.squares[t], Piece.OtherIndex(c));
    } else {
      assert t == p.enpassant as int;
    }
  }

  /** A castling from the king's starting square lands on a square the castling needs
      empty. */
  lemma CastlingLandsFree(p: Position, piece: int, s: int, t: nat, kingside: bool)
    requires Consistent(p) && IsSquare(s) && 0 <= piece < 16 && s == (if p.whiteToMove then 4 else 60)
    requires MayCastle(p, s, kingside) && t == End(CastlingMove(s, piece, kingside))
    ensures !Friendly(p, t)
  {
    var i := RightIndex(p.colourToMove, kingside);
    var u := if kingside then s + 2 else s - 2;
    Built(s, u, piece, Piece.None, CastlingFlag(kingside));
    assert CastlingMove(s, piece, kingside) == NewMove(s as int32, u as int32, piece as int32, Piece.None as int32, CastlingFlag(kingside));
    assert t == u;
    assert u == if kingside then PathHigh(i) else PathLow(i);
    assert !BitOf(p.occupied, u) by {
      assert Safe(p, u);
    }
    UOrAt(p.byColour[0], p.byColour[1], u);
    assert p.friendlyIndex == 0 || p.friendlyIndex == 1;
  }

  /** `GenerateMoves(board)`: the moves of every piece of the side to move, square by square
      in increasing order. Each starts on a square of the side to move, moves the piece
      standing there, and is one `Generated` allows; and every move `Generated` allows a
      piece of the side to move is there. */
  method GenerateMoves(board: Board) returns (moves: seq<Move>)
    requires board.Valid()
    ensures forall m | m in moves ::
      Friendly(board.State(), Start(m)) && Mover(m) == board.Squares[Start(m)] &&
      Generated(board.State(), board.Squares[Start(m)], Start(m), End(m), m.Flag)
    ensures forall s: nat, t: nat, f: int | IsSquare(s) && Friendly(board.State(), s) ::
      Generated(board.State(), board.Squares[s], s, t, f) ==> Lands(moves, s, t, f)
  {
    Readable(board);
    ghost var p := board.State();
    var friendly := board.PiecesByColour[board.FriendlyColourIndex];
    var squares := Enumerate(friendly);
    OnBoard(friendly);
    SquaresExact(friendly);
    moves := [];
    for i := 0 to |squares|
      invariant AllGenerated(moves, p) && AllCovered(moves, squares, i, p)
    {
      var found := GenerateMovesFrom(board, squares[i]);
      GeneratedAppend(moves, found, p, squares[i]);
      CoveredAppend(moves, found, squares, i, p);
      moves := moves + found;
    }
    CoveredAll(moves, squares, p);
  }

  /** The contract of `GenerateMoves` on a position `p`: every move of the list starts on a
      square of the side to move with the piece there and is one `Generated` allows, and
      every move `Generated` allows such a piece is in the list. */
  ghost predicate MoveList(p: Position, moves: seq<Move>)
    requires Consistent(p)
  {
    (forall m | m in moves ::
      Friendly(p, Start(m)) && Mover(m) == p.squares[Start(m)] &&
      Generated(p, p.squares[Start(m)], Start(m), End(m), m.Flag)) &&
    forall s: nat, t: nat, f: int | IsSquare(s) && Friendly(p, s) ::
      Generated(p, p.squares[s], s, t, f) ==> Lands(moves, s, t, f)
  }

  /** What `MakeMove(Move)` does with move `m` on a board that held `p` with key `key` and
      history `history`: a move that is not `Playable` throws; otherwise the result says
      whether the move was legal, the legal move leaves `AfterMove` and pushes its entry,
      and the illegal one is taken back. */
  ghost predicate MadeFrom(board: Board, p: Position, key: ulong, history: seq<BoardHistory>, m: Move, outcome: Outcome<bool>)
    reads board, board.Squares, board.Kings, board.Pieces, board.PiecesByColour
  {
    if !Playable(p, m) then outcome == Throws(IndexOutOfRange)
    else
      var q := AfterMove(p, m);
      var king := q.kings[Piece.OtherIndex(q.friendlyIndex)];
      board.Valid() && outcome.Returns? &&
      (outcome.value <==> !(king != -1 && Attacks.Attacked(q.pieces, q.occupied, q.colourToMove, king))) &&
      (outcome.value ==>
        board.State() == q && board.PositionKey == board.Key() && board.History == history + [Entry(p, m, key)]) &&
      (!outcome.value ==>
        board.State() == AfterTakeback(q, Entry(p, m, key)) && board.PositionKey == key && board.History == history)
  }

  /** `return MakeMove(move)`, with the throw of a move that is not `Playable`. */
  method MakeChosen(board: Board, m: Move) returns (outcome: Outcome<bool>)
    requires board.Valid()
    modifies board, board.Squares, board.Kings, board.Pieces, board.PiecesByColour
    ensures MadeFrom(board, old(board.State()), old(board.PositionKey), old(board.History), m, outcome)
  {
    Readable(board);
    if !Reachable(m, board.EnpassantSquare, board.WhiteToMove) {
      return Throws(IndexOutOfRange);
    }
    var legal := board.MakeMove(m);
    return Returns(legal);
  }

  /** `Board.MakeMove(string)`: generates the moves and makes the first whose text is
      `uci`; without one it returns false and changes nothing. `moves` is the generated
      list and `chosen` the index of the move made, or -1. A chosen move that is not
      `Playable` indexes out of range inside `MakeMove(Move)`: the model reports that
      throw without describing the board it leaves. */
  method MakeUciMove(board: Board, uci: string) returns (outcome: Outcome<bool>, ghost moves: seq<Move>, ghost chosen: int)
    requires board.Valid()
    modifies board, board.Squares, board.Kings, board.Pieces, board.PiecesByColour
    ensures Consistent(old(board.State())) && MoveList(old(board.State()), moves)
    ensures -1 <= chosen < |moves|
    ensures forall i | 0 <= i < |moves| && (chosen == -1 || i < chosen) ::
      UniversalChessInterface.MoveUci(moves[i]) != uci
    ensures chosen == -1 ==>
      outcome == Returns(false) && board.State() == old(board.State()) &&
      board.History == old(board.History) && board.PositionKey == old(board.PositionKey)
    ensures 0 <= chosen < |moves| ==>
      UniversalChessInterface.MoveUci(moves[chosen]) == uci &&
      MadeFrom(board, old(board.State()), old(board.PositionKey), old(board.History), moves[chosen], outcome)
  {
    ghost var p := board.State();
    assert Consistent(p);
    var list := GenerateMoves(board);
    moves, chosen := list, -1;
    assert MoveList(p, list);
    var i := UniversalChessInterface.FirstNamed(list, uci);
    if i == |list| {
      return Returns(false), moves, chosen;
    }
    chosen := i;
    outcome := MakeChosen(board, list[i]);
  }

  /** Every move `Generated` allows the pieces on the first `n` squares of `squares` is in
      `moves`. */
  ghost predicate AllCovered(moves: seq<Move>, squares: seq<int>, n: int, p: Position)
    requires Shaped(p)
  {
    n <= |squares| &&
    forall k, t: nat, f: int | 0 <= k < n && IsSquare(squares[k]) ::
      Generated(p, p.squares[squares[k]], squares[k], t, f) ==> Lands(moves, squares[k], t, f)
  }

  /** The moves of the next square keep `AllCovered` one square further. */
  lemma CoveredAppend(moves: seq<Move>, found: seq<Move>, squares: seq<int>, n: int, p: Position)
    requires Shaped(p) && AllCovered(moves, squares, n, p) && 0 <= n < |squares| && IsSquare(squares[n])
    requires forall t: nat, f: int :: Generated(p, p.squares[squares[n]], squares[n], t, f) ==> Lands(found, squares[n], t, f)
    ensures AllCovered(moves + found, squares, n + 1, p)
  {
    forall k, t: nat, f: int | 0 <= k < n + 1 && IsSquare(squares[k]) && Generated(p, p.squares[squares[k]], squares[k], t, f)
      ensures Lands(moves + found, squares[k], t, f)
    {
      LandsAppend(moves, found, squares[k], t, f);
    }
  }

  /** After the loop every square of the side to move is covered. */
  lemma CoveredAll(moves: seq<Move>, squares: seq<int>, p: Position)
    requires Shaped(p) && AllCovered(moves, squares, |squares|, p)
    requires forall j :: j in squares <==> IsSquare(j) && Friendly(p, j)
    ensures forall s: nat, t: nat, f: int | IsSquare(s) && Friendly(p, s) ::
      Generated(p, p.squares[s], s, t, f) ==> Lands(moves, s, t, f)
  {
    forall s: nat, t: nat, f: int | IsSquare(s) && Friendly(p, s) && Generated(p, p.squares[s], s, t, f)
      ensures Lands(moves, s, t, f)
    {
      var k :| 0 <= k < |squares| && squares[k] == s;
    }
  }

  /** Every move of `moves` starts on a square of the side to move and is one `Generated`
      allows. */
  ghost predicate AllGenerated(moves: seq<Move>, p: Position)
    requires Shaped(p)
  {
    forall m | m in moves ::
      Friendly(p, Start(m)) && Mover(m) == p.squares[Start(m)] && Generated(p, p.squares[Start(m)], Start(m), End(m), m.Flag)
  }

  /** The moves of one more square of the side to move keep `AllGenerated`. */
  lemma GeneratedAppend(moves: seq<Move>, found: seq<Move>, p: Position, s: int)
    requires Shaped(p) && IsSquare(s) && Friendly(p, s) && AllGenerated(moves, p)
    requires forall m | m in found :: Start(m) == s && Mover(m) == p.squares[s]
    requires forall t: nat, f: int :: Lands(found, s, t, f) ==> Generated(p, p.squares[s], s, t, f)
    ensures AllGenerated(moves + found, p)
  {
    forall m | m in moves + found
      ensures Friendly(p, Start(m)) && Mover(m) == p.squares[Start(m)] && Generated(p, p.squares[Start(m)], Start(m), End(m), m.Flag)
    {
      if m in found {
        assert Lands(found, s, End(m), m.Flag);
      }
    }
  }

  /** `GenerateMoves(board, startingSquare)`: the moves of the piece on `startingSquare`,
      by its type, exactly as `Generated` describes them. */
  method GenerateMovesFrom(board: Board, startingSquare: int) returns (moves: seq<Move>)
    requires board.Valid() && IsSquare(startingSquare)
    ensures forall m | m in moves :: Start(m) == startingSquare && Mover(m) == board.Squares[startingSquare]
    ensures forall t: nat, f: int :: Lands(moves, startingSquare, t, f) <==>
      Generated(board.State(), board.Squares[startingSquare], startingSquare, t, f)
  {
    Readable(board);
    ghost var p := board.State();
    var piece := board.Squares[startingSquare];
    assert piece == p.squares[startingSquare];
    if piece / 8 != board.FriendlyColourIndex {
      return [];
    }
    var kind := Piece.Type(piece);
    if kind == Piece.Pawn {
      moves := GeneratePawnMoves(board, startingSquare, piece);
      PawnLands(moves, p, startingSquare, piece);
    } else if kind == Piece.King {
      moves := GenerateKingMoves(board, startingSquare, piece);
      KingLands(moves, p, startingSquare, piece);
    } else if kind == Piece.Knight {
      moves := GenerateKnightMoves(board, startingSquare, piece);
    } else if kind == Piece.Bishop {
      moves := GenerateSlidingMoves(board, startingSquare, piece, 4, 8);
    } else if kind == Piece.Rook {
      moves := GenerateSlidingMoves(board, startingSquare, piece, 0, 4);
    } else if kind == Piece.Queen {
      moves := GenerateSlidingMoves(board, startingSquare, piece, 0, 8);
    } else {
      moves := [];
    }
  }

  /** The pawn's generated moves land exactly where `Generated` allows. */
  lemma PawnLands(moves: seq<Move>, p: Position, s: int, piece: int)
    requires Shaped(p) && IsSquare(s) && 0 <= piece < 16 && piece / 8 == p.friendlyIndex && Piece.Type(piece) == Piece.Pawn
    requires var c := p.friendlyIndex;
      (forall m | m in moves ::
        PushMade(m, p.occupied, c, s, piece) || CaptureMade(m, p.squares, p.byColour[Piece.OtherIndex(c)], p.enpassant, c, s, piece)) &&
      (forall t: nat, f: int ::
        PushGoes(p.occupied, c, s, t, f) || CaptureGoes(p.byColour[Piece.OtherIndex(c)], p.enpassant, c, s, t, f) ==>
        Lands(moves, s, t, f))
    ensures forall m | m in moves :: Start(m) == s && Mover(m) == piece
    ensures forall t: nat, f: int :: Lands(moves, s, t, f) <==> Generated(p, piece, s, t, f)
  {
    forall t: nat, f: int | Lands(moves, s, t, f)
      ensures Generated(p, piece, s, t, f)
    {
      var m :| m in moves && Start(m) == s && End(m) == t && m.Flag == f;
    }
  }

  /** So do the king's. */
  lemma KingLands(moves: seq<Move>, p: Position, s: int, piece: int)
    requires Shaped(p) && IsSquare(s) && 0 <= piece < 16 && piece / 8 == p.friendlyIndex && Piece.Type(piece) == Piece.King
    requires forall m | m in moves ::
      Stepping(m, s, piece, p.squares) || m == CastlingMove(s, piece, true) || m == CastlingMove(s, piece, false)
    requires forall t: nat :: Lands(moves, s, t, MoveFlags.None) <==> KingStep(s, t) && !Friendly(p, t) && !Threatened(p, t)
    requires CastlingMove(s, piece, true) in moves <==> MayCastle(p, s, true)
    requires CastlingMove(s, piece, false) in moves <==> MayCastle(p, s, false)
    ensures forall m | m in moves :: Start(m) == s && Mover(m) == piece
    ensures forall t: nat, f: int :: Lands(moves, s, t, f) <==> Generated(p, piece, s, t, f)
  {
    CastlingFields(s, piece, true);
    CastlingFields(s, piece, false);
    forall t: nat, f: int
      ensures Lands(moves, s, t, f) <==> Generated(p, piece, s, t, f)
    {
      if Lands(moves, s, t, f) && f != MoveFlags.None {
        var m :| m in moves && Start(m) == s && End(m) == t && m.Flag == f;
        var kingside := m == CastlingMove(s, piece, true);
        assert f == CastlingFlag(kingside) && t == End(CastlingMove(s, piece, kingside)) && MayCastle(p, s, kingside);
      }
      if Generated(p, piece, s, t, f) && f != MoveFlags.None {
        var kingside :| f == CastlingFlag(kingside) && t == End(CastlingMove(s, piece, kingside)) && MayCastle(p, s, kingside);
        assert CastlingMove(s, piece, kingside) in moves;
      }
    }
  }

  /** A castling move starts on the king's square and moves the king, whatever square two
      files away it names. */
  lemma CastlingFields(s: int, piece: int, kingside: bool)
    requires IsSquare(s) && 0 <= piece < 16
    ensures var m := CastlingMove(s, piece, kingside);
      Start(m) == s && Mover(m) == piece && m.Flag == CastlingFlag(kingside)
  {
    var m := CastlingMove(s, piece, kingside);
    Pack(piece as int32, s as int32);
    Unpack(m.From, piece, s);
  }

  // ------------------------------------------------------- the shared loop

  /** `foreach (var endingSquare in Bitboard.Enumerate(targets)) moves.Add(new Move(...))`:
      one move without a flag to every square of `targets`, naming the piece standing
      there in the mailbox `squares`. */
  method AddMoves(squares: array<int>, s: int, piece: int, targets: ulong) returns (moves: seq<Move>)
    requires Zobrist.IsMailbox(squares[..]) && IsSquare(s) && 0 <= piece < 16
    ensures forall m | m in moves :: Stepping(m, s, piece, squares[..])
    ensures forall t: nat, f: int :: Lands(moves, s, t, f) <==> f == MoveFlags.None && IsSquare(t) && BitOf(targets, t)
  {
    var ends := Enumerate(targets);
    OnBoard(targets);
    moves := [];
    for i := 0 to |ends|
      invariant MadeTo(moves, ends, i, s, piece, squares[..])
    {
      var m := MoveTo(squares, s, ends[i], piece);
      MadeToSnoc(moves, ends, i, m, s, piece, squares[..]);
      moves := moves + [m];
    }
    Enumerated(moves, ends, s, piece, squares[..]);
    SquaresExact(targets);
  }

  /** The moves of the shared loop after `n` turns: one to each of the first `n` squares of
      `ends`, in order. */
  ghost predicate MadeTo(moves: seq<Move>, ends: seq<int>, n: int, s: int, piece: int, mailbox: seq<int>)
    requires |mailbox| == 64
  {
    |moves| == n <= |ends| &&
    forall k | 0 <= k < n :: 0 <= ends[k] < 64 && Goes(moves[k], s, ends[k], piece, mailbox[ends[k]], MoveFlags.None)
  }

  lemma MadeToSnoc(moves: seq<Move>, ends: seq<int>, n: int, m: Move, s: int, piece: int, mailbox: seq<int>)
    requires |mailbox| == 64 && MadeTo(moves, ends, n, s, piece, mailbox) && n < |ends| && 0 <= ends[n] < 64
    requires Goes(m, s, ends[n], piece, mailbox[ends[n]], MoveFlags.None)
    ensures MadeTo(moves + [m], ends, n + 1, s, piece, mailbox)
  {
  }

  /** `Enumerate` yields squares only. */
  lemma OnBoard(b: ulong)
    ensures forall k | 0 <= k < |Squares(b)| :: IsSquare(Squares(b)[k])
  {
    SquaresFromMembers(b, 0);
  }

  /** `new Move(s, t, piece, squares[t])`. */
  method MoveTo(squares: array<int>, s: int, t: int, piece: int) returns (m: Move)
    requires Zobrist.IsMailbox(squares[..]) && IsSquare(s) && IsSquare(t) && 0 <= piece < 16
    ensures Goes(m, s, t, piece, squares[..][t], MoveFlags.None)
  {
    assert squares[t] == squares[..][t];
    Built(s, t, piece, squares[t], MoveFlags.None);
    m := NewMove(s as int32, t as int32, piece as int32, squares[t] as int32, MoveFlags.None);
  }

  /** After the shared loop: its moves go to exactly the enumerated squares. */
  lemma Enumerated(moves: seq<Move>, squares: seq<int>, s: int, piece: int, mailbox: seq<int>)
    requires |mailbox| == 64 && MadeTo(moves, squares, |squares|, s, piece, mailbox)
    ensures forall m | m in moves :: Stepping(m, s, piece, mailbox)
    ensures forall t: nat, f: int :: Lands(moves, s, t, f) <==> f == MoveFlags.None && t in squares
  {
    forall t: nat, f: int
      ensures Lands(moves, s, t, f) <==> f == MoveFlags.None && t in squares
    {
      if f == MoveFlags.None && t in squares {
        var k :| 0 <= k < |squares| && squares[k] == t;
        assert moves[k] in moves;
      }
      if Lands(moves, s, t, f) {
        var m :| m in moves && Start(m) == s && End(m) == t && m.Flag == f;
        var k :| 0 <= k < |moves| && moves[k] == m;
      }
    }
  }

  // ------------------------------------------------------------- the knight

  /** The knight's moves: one to every square a knight jump away that holds no piece of the
      side to move, naming the piece it captures. */
  method GenerateKnightMoves(board: Board, startingSquare: int, piece: int) returns (moves: seq<Move>)
    requires board.Valid() && IsSquare(startingSquare) && 0 <= piece < 16
    ensures forall m | m in moves :: Stepping(m, startingSquare, piece, board.Squares[..])
    ensures forall t: nat, f: int :: Lands(moves, startingSquare, t, f) <==>
      f == MoveFlags.None && KnightJump(startingSquare, t) && !Friendly(board.State(), t)
  {
    Readable(board);
    var friendly := board.PiecesByColour[board.FriendlyColourIndex];
    var pattern := UAnd(board.tables.KnightPatterns[startingSquare], UNot(friendly));
    moves := AddMoves(board.Squares, startingSquare, piece, pattern);
    forall t: nat
      ensures IsSquare(t) && BitOf(pattern, t) <==> KnightJump(startingSquare, t) && !BitOf(friendly, t)
    {
      UAndAt(board.tables.KnightPatterns[startingSquare], UNot(friendly), t);
      UNotAt(friendly, t);
    }
  }

  // --------------------------------------------------------------- the king

  /** The castling right a castling needs, as the index of its bit: `ColourToMove >> 2` is 0
      for White and 2 for Black, the king's side; `kingCastling | 1` is the queen's side. */
  function RightIndex(colourToMove: int, kingside: bool): int {
    colourToMove / 4 + (if kingside then 0 else 1)
  }

  /** A square the king crosses or lands on while castling is empty and not attacked. */
  ghost predicate Safe(p: Position, u: nat)
    requires Shaped(p)
  {
    !BitOf(p.occupied, u) && !Threatened(p, u)
  }

  /** The two squares between king and rook that a castling needs empty and not attacked, as
      `PrecomputedMoveData.Castlings[i]` holds them: f1 g1, c1 d1, f8 g8 and c8 d8. */
  function PathLow(i: int): int
    requires 0 <= i < 4
  {
    [5, 2, 61, 58][i]
  }

  function PathHigh(i: int): int
    requires 0 <= i < 4
  {
    [6, 3, 62, 59][i]
  }

  /** The king of `s` may castle on that side: its king square is not attacked (read
      modulo 64, as the shift reads it), the side still has the right, the two squares of
      `PrecomputedMoveData.Castlings` between king and rook (f and g, or c and d, of the
      side's first rank) are empty and not attacked, and on the queen's side the square
      three to the left of `s` is empty as well. */
  ghost predicate MayCastle(p: Position, s: int, kingside: bool)
    requires Shaped(p)
  {
    var i := RightIndex(p.colourToMove, kingside);
    !Threatened(p, p.kings[p.friendlyIndex] % 64) && BitOf(p.castlings, i) &&
    Safe(p, PathLow(i)) && Safe(p, PathHigh(i)) &&
    (kingside || !BitOf(p.occupied, (s - 3) % 64))
  }

  /** The flag of a castling move, as the move reads it. */
  function CastlingFlag(kingside: bool): (flag: byte)
    ensures flag != MoveFlags.None
  {
    if kingside then MoveFlags.KingsideCastling else MoveFlags.QueensideCastling
  }

  /** The castling move of the king on `s`: two squares to the right on the king's side, two
      to the left on the queen's side. */
  function CastlingMove(s: int, piece: int, kingside: bool): Move
    requires IsSquare(s) && 0 <= piece < 16
  {
    NewMove(s as int32, (if kingside then s + 2 else s - 2) as int32, piece as int32, Piece.None as int32, CastlingFlag(kingside))
  }

  /** The flags the source passes for the two castlings: `Flags.KingsideCastling` (64) for
      the move two squares right and `Flags.QueensideCastling` (128) for the move two squares
      left. `Move` reads its flag with `MoveFlags`, where 64 is the queenside castling. */
  function CastlingFlagAsWritten(kingside: bool): (flag: byte)
    ensures flag != MoveFlags.None && flag != CastlingFlag(kingside)
  {
    if kingside then Flags.KingsideCastling else Flags.QueensideCastling
  }

  /** With the flags as written, the king's move two squares right from its starting square
      is read as a queenside castling, and the rook it names is the one in the queen's
      corner. */
  lemma CastlingFlagsSwapped(s: int, piece: int)
    requires (s == 4 || s == 60) && 0 <= piece < 16
    ensures var m := NewMove(s as int32, (s + 2) as int32, piece as int32, Piece.None as int32, CastlingFlagAsWritten(true));
      m.IsQueensideCastling() && !m.IsKingsideCastling() &&
      m.CastlingRookSquare() == (if piece < 8 then 0 else 56)
  {
    CastlingRookSquareSpec(s as int32, (s + 2) as int32, piece as int32, Piece.None as int32, CastlingFlagAsWritten(true));
  }

  /** With the corrected flags, each castling is read as the castling it is, and names the
      rook of its own corner. */
  lemma CastlingFlagsRead(s: int, piece: int, kingside: bool)
    requires (s == 4 || s == 60) && 0 <= piece < 16
    ensures var m := CastlingMove(s, piece, kingside);
      m.IsKingsideCastling() == kingside && m.IsQueensideCastling() == !kingside &&
      m.CastlingRookSquare() == (if piece < 8 then (if kingside then 7 else 0) else (if kingside then 63 else 56))
  {
    var t := if kingside then s + 2 else s - 2;
    CastlingRookSquareSpec(s as int32, t as int32, piece as int32, Piece.None as int32, CastlingFlag(kingside));
  }

  /** The text of a castling the generator makes, from the king's square to an empty
      square, reads back through `GetMoveFromUci` as the same move. */
  lemma CastlingTextReadsBack(p: Position, kingside: bool)
    requires Shaped(p) && (p.kings[p.friendlyIndex] == 4 || p.kings[p.friendlyIndex] == 60)
    requires var s := p.kings[p.friendlyIndex];
      p.squares[if kingside then s + 2 else s - 2] == Piece.None
    ensures var s := p.kings[p.friendlyIndex];
      var m := CastlingMove(s, p.squares[s], kingside);
      UniversalChessInterface.GetMoveFromUci(p, UniversalChessInterface.MoveUci(m)) == Returns(m)
  {
    var s := p.kings[p.friendlyIndex];
    var e := if kingside then s + 2 else s - 2;
    UniversalChessInterface.UciReadsMove(p, s, e, CastlingFlag(kingside));
  }

  /** With the flags as written it does not: the text of the kingside castling reads back
      with the kingside flag, not the one the generator put in. */
  lemma CastlingTextAsWritten(p: Position)
    requires Shaped(p) && (p.kings[p.friendlyIndex] == 4 || p.kings[p.friendlyIndex] == 60)
    requires p.squares[p.kings[p.friendlyIndex] + 2] == Piece.None
    ensures var s := p.kings[p.friendlyIndex];
      var m := NewMove(s as int32, (s + 2) as int32, p.squares[s] as int32, Piece.None as int32, CastlingFlagAsWritten(true));
      UniversalChessInterface.GetMoveFromUci(p, UniversalChessInterface.MoveUci(m)) != Returns(m)
  {
    var s := p.kings[p.friendlyIndex];
    UniversalChessInterface.UciReadsMove(p, s, s + 2, CastlingFlagAsWritten(true));
  }

  /** The king's moves: one step to every neighbouring square that holds no piece of the side
      to move and that the other side does not attack, and each castling the side may
      make. */
  method GenerateKingMoves(board: Board, startingSquare: int, piece: int) returns (moves: seq<Move>)
    requires board.Valid() && IsSquare(startingSquare) && 0 <= piece < 16
    ensures forall m | m in moves ::
      Stepping(m, startingSquare, piece, board.Squares[..]) ||
      m == CastlingMove(startingSquare, piece, true) || m == CastlingMove(startingSquare, piece, false)
    ensures forall t: nat :: Lands(moves, startingSquare, t, MoveFlags.None) <==>
      KingStep(startingSquare, t) && !Friendly(board.State(), t) && !Threatened(board.State(), t)
    ensures CastlingMove(startingSquare, piece, true) in moves <==> MayCastle(board.State(), startingSquare, true)
    ensures CastlingMove(startingSquare, piece, false) in moves <==> MayCastle(board.State(), startingSquare, false)
  {
    Readable(board);
    ghost var p := board.State();
    var friendly := board.PiecesByColour[board.FriendlyColourIndex];
    var pattern := UAnd(board.tables.KingPatterns[startingSquare], UNot(UOr(friendly, board.OpponentAttacks)));
    var steps := AddMoves(board.Squares, startingSquare, piece, pattern);
    KingTargets(board.tables, startingSquare, friendly, board.OpponentAttacks);
    var castlings := GenerateCastlings(board, startingSquare, piece);
    moves := steps + castlings;
    forall t: nat
      ensures Lands(moves, startingSquare, t, MoveFlags.None) <==> Lands(steps, startingSquare, t, MoveFlags.None)
    {
      LandsAppend(steps, castlings, startingSquare, t, MoveFlags.None);
    }
  }

  /** The squares of the king's step pattern: neighbours with no friendly piece and no
      attack on them. */
  lemma KingTargets(tables: Tables, s: int, friendly: ulong, attacks: ulong)
    requires tables.Valid() && IsSquare(s)
    ensures forall t: nat :: IsSquare(t) && BitOf(UAnd(tables.KingPatterns[s], UNot(UOr(friendly, attacks))), t) <==>
      KingStep(s, t) && !BitOf(friendly, t) && !BitOf(attacks, t)
  {
    forall t: nat
      ensures IsSquare(t) && BitOf(UAnd(tables.KingPatterns[s], UNot(UOr(friendly, attacks))), t) <==>
        KingStep(s, t) && !BitOf(friendly, t) && !BitOf(attacks, t)
    {
      UAndAt(tables.KingPatterns[s], UNot(UOr(friendly, attacks)), t);
      UNotAt(UOr(friendly, attacks), t);
      UOrAt(friendly, attacks, t);
    }
  }

  /** The castling branch of `GenerateKingMoves`: nothing while the king square is
      attacked; otherwise each castling whose right is held, whose path is empty and not
      attacked, and, on the queen's side, whose square three to the left is empty. */
  method GenerateCastlings(board: Board, startingSquare: int, piece: int) returns (castlings: seq<Move>)
    requires board.Valid() && IsSquare(startingSquare) && 0 <= piece < 16
    ensures forall m | m in castlings :: m == CastlingMove(startingSquare, piece, true) || m == CastlingMove(startingSquare, piece, false)
    ensures CastlingMove(startingSquare, piece, true) in castlings <==> MayCastle(board.State(), startingSquare, true)
    ensures CastlingMove(startingSquare, piece, false) in castlings <==> MayCastle(board.State(), startingSquare, false)
  {
    Readable(board);
    var attacks, occupied, rights := board.OpponentAttacks, board.OccupiedSquares, board.Castlings;
    var kingSquare, colour := board.Kings[board.FriendlyColourIndex], board.ColourToMove;
    castlings := Castle(attacks, occupied, rights, kingSquare, colour, startingSquare, piece);
    CastlingTestsRead(board, startingSquare, true);
    CastlingTestsRead(board, startingSquare, false);
  }

  /** The tests of the castling branch, on the values the board holds. */
  predicate CastlingTests(attacks: ulong, occupied: ulong, rights: nat, kingSquare: int, colour: int, s: int, kingside: bool)
    requires colour == Piece.White || colour == Piece.Black
  {
    var i := RightIndex(colour, kingside);
    !BitOf(attacks, kingSquare % 64) && BitOf(rights, i) &&
    !BitOf(occupied, PathLow(i)) && !BitOf(attacks, PathLow(i)) &&
    !BitOf(occupied, PathHigh(i)) && !BitOf(attacks, PathHigh(i)) &&
    (kingside || !BitOf(occupied, (s - 3) % 64))
  }

  /** On a valid board the tests say what `MayCastle` states. */
  lemma CastlingTestsRead(board: Board, s: int, kingside: bool)
    requires board.Valid() && IsSquare(s)
    ensures MayCastle(board.State(), s, kingside) <==>
      CastlingTests(board.OpponentAttacks, board.OccupiedSquares, board.Castlings,
        board.Kings[board.FriendlyColourIndex], board.ColourToMove, s, kingside)
  {
    Readable(board);
  }

  /** The castling branch itself, on the attack map, the occupied squares, the rights, the
      king square and the colour to move. */
  method Castle(attacks: ulong, occupied: ulong, rights: int, kingSquare: int, colour: int, s: int, piece: int)
    returns (castlings: seq<Move>)
    requires 0 <= rights < 16 && (colour == Piece.White || colour == Piece.Black) && IsSquare(s) && 0 <= piece < 16
    ensures forall m | m in castlings :: m == CastlingMove(s, piece, true) || m == CastlingMove(s, piece, false)
    ensures CastlingMove(s, piece, true) in castlings <==> CastlingTests(attacks, occupied, rights, kingSquare, colour, s, true)
    ensures CastlingMove(s, piece, false) in castlings <==> CastlingTests(attacks, occupied, rights, kingSquare, colour, s, false)
  {
    var king, queen := CastlingMove(s, piece, true), CastlingMove(s, piece, false);
    assert king != queen by {
      assert king.Flag != queen.Flag;
    }
    castlings := [];
    TestBit(attacks, kingSquare);
    if UAnd(UShr(attacks, kingSquare), 1) == 0 {
      var kingCastling := colour / 4;
      var queenCastling := kingCastling + 1;
      var kingside := CastlingAllowed(attacks, occupied, rights, kingCastling);
      var queenside := CastlingAllowed(attacks, occupied, rights, queenCastling);
      TestBit(occupied, s - 3);
      var queensideEmpty := queenside && UAnd(UShr(occupied, s - 3), 1) == 0;
      castlings := (if kingside then [king] else []) + (if queensideEmpty then [queen] else []);
      Pair(king, queen, kingside, queensideEmpty);
    }
  }

  /** The castlings appended one after the other: each is there exactly when its test
      passed. */
  lemma Pair(king: Move, queen: Move, kingside: bool, queenside: bool)
    requires king != queen
    ensures var both := (if kingside then [king] else []) + (if queenside then [queen] else []);
      (forall m | m in both :: m == king || m == queen) && (king in both <==> kingside) && (queen in both <==> queenside)
  {
  }

  /** `(Castlings & (1 << i)) != 0 && (PrecomputedMoveData.Castlings[i] & ~(OccupiedSquares
      | OpponentAttacks)) == PrecomputedMoveData.Castlings[i]`: the right is held and its path
      is empty and not attacked. */
  method CastlingAllowed(attacks: ulong, occupied: ulong, rights: int, i: int) returns (allowed: bool)
    requires 0 <= rights < 16 && 0 <= i < 4
    ensures allowed <==>
      BitOf(rights, i) && !BitOf(occupied, PathLow(i)) && !BitOf(attacks, PathLow(i)) &&
      !BitOf(occupied, PathHigh(i)) && !BitOf(attacks, PathHigh(i))
  {
    RightHeld(rights, i);
    PathClear(i, occupied, attacks);
    allowed := AndBits(rights, Pow2(i)) != 0 && UAnd(Castlings[i], UNot(UOr(occupied, attacks))) == Castlings[i];
  }

  /** A move is in a concatenation when it is in one of its parts. */
  lemma LandsAppend(a: seq<Move>, b: seq<Move>, s: int, t: int, f: int)
    ensures Lands(a + b, s, t, f) <==> Lands(a, s, t, f) || Lands(b, s, t, f)
  {
    if Lands(a + b, s, t, f) {
      var m :| m in a + b && Start(m) == s && End(m) == t && m.Flag == f;
      assert m in a || m in b;
    }
    if Lands(a, s, t, f) {
      var m :| m in a && Start(m) == s && End(m) == t && m.Flag == f;
      assert m in a + b;
    }
    if Lands(b, s, t, f) {
      var m :| m in b && Start(m) == s && End(m) == t && m.Flag == f;
      assert m in a + b;
    }
  }

  /** `(a >> k) & 1` is zero exactly when bit `k` of `a`, the count read modulo 64, is
      clear. */
  lemma TestBit(a: ulong, k: int)
    ensures UAnd(UShr(a, k), 1) == 0 <==> !BitOf(a, k % 64)
  {
    var x := UShr(a, k);
    UShrAt(a, k, 0);
    AndBitsBound(x / 2, 0);
    assert AndBits(x, 1) == 2 * AndBits(x / 2, 0) + (if x % 2 == 1 then 1 else 0);
  }

  /** `(castlings & (1 << i)) != 0` tests bit `i`. */
  lemma RightHeld(castlings: nat, i: nat)
    ensures AndBits(castlings, Pow2(i)) != 0 <==> BitOf(castlings, i)
  {
    NonZero(AndBits(castlings, Pow2(i)));
    if BitOf(castlings, i) {
      AndBitAt(castlings, Pow2(i), i);
      BitOfPow2(i, i);
    }
    if AndBits(castlings, Pow2(i)) != 0 {
      var k: nat :| BitOf(AndBits(castlings, Pow2(i)), k);
      AndBitAt(castlings, Pow2(i), k);
      BitOfPow2(i, k);
    }
  }

  /** `(Castlings[i] & ~(occupied | attacks)) == Castlings[i]`: the two squares of the
      castling path are neither occupied nor attacked. */
  lemma PathClear(i: int, occupied: ulong, attacks: ulong)
    requires 0 <= i < 4
    ensures UAnd(Castlings[i], UNot(UOr(occupied, attacks))) == Castlings[i] <==>
      !BitOf(occupied, PathLow(i)) && !BitOf(attacks, PathLow(i)) && !BitOf(occupied, PathHigh(i)) && !BitOf(attacks, PathHigh(i))
  {
    var kept := UAnd(Castlings[i], UNot(UOr(occupied, attacks)));
    forall t: nat
      ensures BitOf(kept, t) <==> BitOf(Castlings[i], t) && !BitOf(occupied, t) && !BitOf(attacks, t)
    {
      UAndAt(Castlings[i], UNot(UOr(occupied, attacks)), t);
      UNotAt(UOr(occupied, attacks), t);
      UOrAt(occupied, attacks, t);
      CastlingsAt(i, t);
    }
    CastlingsAt(i, PathLow(i));
    CastlingsAt(i, PathHigh(i));
    if !BitOf(occupied, PathLow(i)) && !BitOf(attacks, PathLow(i)) && !BitOf(occupied, PathHigh(i)) && !BitOf(attacks, PathHigh(i)) {
      forall t: nat
        ensures BitOf(kept, t) == BitOf(Castlings[i], t)
      {
        CastlingsAt(i, t);
      }
      BitsEqual(kept, Castlings[i]);
    }
  }

  // ------------------------------------------------------------ the sliders

  /** A slider's moves in the directions `first` to `last - 1`: one to every square it
      reaches over empty squares, the first occupied square of each ray included, unless
      that holds a piece of the side to move. */
  method GenerateSlidingMoves(board: Board, startingSquare: int, piece: int, first: int, last: int)
    returns (moves: seq<Move>)
    requires board.Valid() && IsSquare(startingSquare) && 0 <= piece < 16 && 0 <= first <= last <= 8
    ensures forall m | m in moves :: Stepping(m, startingSquare, piece, board.Squares[..])
    ensures forall t: nat, f: int :: Lands(moves, startingSquare, t, f) <==>
      f == MoveFlags.None && Attacks.SlidesTo(startingSquare, first, last, t, board.OccupiedSquares) &&
      !Friendly(board.State(), t)
  {
    Readable(board);
    var friendly := board.PiecesByColour[board.FriendlyColourIndex];
    var bitboard := 0;
    ZeroBitsAll();
    for directionIndex := first to last
      invariant forall t: nat :: BitOf(bitboard, t) <==>
        (exists d :: first <= d < directionIndex && Attacks.Reaches(startingSquare, d, t, board.OccupiedSquares)) &&
        !BitOf(friendly, t)
    {
      var pattern := Attacks.SlidingAttack(board.tables, startingSquare, directionIndex, board.OccupiedSquares);
      var kept := UAnd(pattern, UNot(friendly));
      forall t: nat
        ensures BitOf(UOr(bitboard, kept), t) <==>
          BitOf(bitboard, t) || (Attacks.Reaches(startingSquare, directionIndex, t, board.OccupiedSquares) && !BitOf(friendly, t))
      {
        UOrAt(bitboard, kept, t);
        UAndAt(pattern, UNot(friendly), t);
        UNotAt(friendly, t);
        Attacks.SlidingAttackExact(board.tables, startingSquare, directionIndex, board.OccupiedSquares, t);
        if Attacks.Reaches(startingSquare, directionIndex, t, board.OccupiedSquares) {
          assert IsSquare(t);
        }
      }
      bitboard := UOr(bitboard, kept);
    }
    moves := AddMoves(board.Squares, startingSquare, piece, bitboard);
    forall t: nat
      ensures BitOf(bitboard, t) ==> IsSquare(t)
    {
      if BitOf(bitboard, t) {
        var d :| first <= d < last && Attacks.Reaches(startingSquare, d, t, board.OccupiedSquares);
      }
    }
  }

  // --------------------------------------------------------------- the pawn

  /** A pawn of colour index `c` on `s` promotes when it moves: it stands on the seventh
      rank for White, the second for Black. */
  predicate Promotes(c: int, s: int) {
    Rank(s) == (if c == 0 then 6 else 1)
  }

  /** The flags of a pawn's move to the next rank or a capture: one of the four promotion
      flags when it promotes, no flag otherwise. */
  predicate PawnFlag(promotes: bool, f: int) {
    if promotes then f == MoveFlags.PromotionKnight || f == MoveFlags.PromotionBishop ||
      f == MoveFlags.PromotionRook || f == MoveFlags.PromotionQueen
    else f == MoveFlags.None
  }

  /** A single push: one square forward onto an empty square. */
  predicate Pushes(occupied: ulong, c: int, s: int, t: int) {
    PawnPush(s, c, t) && !BitOf(occupied, t)
  }

  /** A double push: two single pushes, ending on the fourth rank of the side (the rank of
      `Rank4` for White, of `Rank5` for Black). */
  predicate DoublePush(occupied: ulong, c: int, s: int, t: int) {
    var u := s + 8 * Forward(c);
    Pushes(occupied, c, s, u) && Pushes(occupied, c, u, t) && Rank(t) == (if c == 0 then 3 else 4)
  }

  /** A capture target: a square the pawn attacks that holds a piece of the other side or
      is the en-passant square (its shift `1UL << enpassant` read modulo 64). */
  predicate Captures(opponents: ulong, enpassant: int32, c: int, s: int, t: int) {
    PawnAttack(s, c, t) && (BitOf(opponents, t) || (enpassant != -1 && t == enpassant as int % 64))
  }

  /** The pushes the generator yields: to the next rank with the pawn flag, and the double
      push flagged as one. */
  predicate PushGoes(occupied: ulong, c: int, s: int, t: int, f: int) {
    (PawnFlag(Promotes(c, s), f) && Pushes(occupied, c, s, t)) ||
    (f == MoveFlags.DoublePawnPush && DoublePush(occupied, c, s, t))
  }

  /** The captures the generator yields: the en-passant square flagged as such, every other
      target with the pawn flag. */
  predicate CaptureGoes(opponents: ulong, enpassant: int32, c: int, s: int, t: int, f: int) {
    Captures(opponents, enpassant, c, s, t) &&
    (if t == enpassant as int then f == MoveFlags.EnpassantCapture else PawnFlag(Promotes(c, s), f))
  }

  /** A push the generator made: the pawn `piece` from `s`, onto an empty square. */
  predicate PushMade(m: Move, occupied: ulong, c: int, s: int, piece: int) {
    Start(m) == s && Mover(m) == piece && Taken(m) == Piece.None && PushGoes(occupied, c, s, End(m), m.Flag)
  }

  /** A capture the generator made: the pawn `piece` from `s`, naming the piece on the target
      square, or no piece for the en-passant capture. */
  predicate CaptureMade(m: Move, mailbox: seq<int>, opponents: ulong, enpassant: int32, c: int, s: int, piece: int)
    requires |mailbox| == 64
  {
    Start(m) == s && Mover(m) == piece && CaptureGoes(opponents, enpassant, c, s, End(m), m.Flag) &&
    Taken(m) == (if End(m) == enpassant as int then Piece.None else mailbox[End(m)])
  }

  /** The pawn's moves: the pushes and the captures. Every move is one `PushMade` or
      `CaptureMade` describes, and every target and flag they allow is generated. */
  method GeneratePawnMoves(board: Board, startingSquare: int, piece: int) returns (moves: seq<Move>)
    requires board.Valid() && IsSquare(startingSquare) && 0 <= piece < 16
    ensures var c, occupied := board.FriendlyColourIndex, board.OccupiedSquares;
      var opponents, enpassant := board.PiecesByColour[Piece.OtherIndex(c)], board.EnpassantSquare;
      (forall m | m in moves ::
        PushMade(m, occupied, c, startingSquare, piece) ||
        CaptureMade(m, board.Squares[..], opponents, enpassant, c, startingSquare, piece)) &&
      (forall t: nat, f: int ::
        PushGoes(occupied, c, startingSquare, t, f) || CaptureGoes(opponents, enpassant, c, startingSquare, t, f) ==>
        Lands(moves, startingSquare, t, f))
  {
    Readable(board);
    var c := board.FriendlyColourIndex;
    var pushes := PushMoves(board.tables, board.OccupiedSquares, board.WhiteToMove, c, startingSquare, piece);
    var captures := CaptureMoves(board.tables, board.Squares, board.PiecesByColour[Piece.OtherIndex(c)],
      board.EnpassantSquare, board.WhiteToMove, c, startingSquare, piece);
    moves := pushes + captures;
    forall t: nat, f: int
      ensures Lands(moves, startingSquare, t, f) <==> Lands(pushes, startingSquare, t, f) || Lands(captures, startingSquare, t, f)
    {
      LandsAppend(pushes, captures, startingSquare, t, f);
    }
  }

  /** The pushes of `GeneratePawnMoves`: the single push, as four promotions on the
      promotion rank, otherwise as a plain move followed by the double push if that square is
      empty too. */
  method PushMoves(tables: Tables, occupied: ulong, whiteToMove: bool, c: int, s: int, piece: int)
    returns (moves: seq<Move>)
    requires tables.Valid() && whiteToMove == (c == 0) && 0 <= c < 2 && IsSquare(s) && 0 <= piece < 16
    ensures forall m | m in moves :: PushMade(m, occupied, c, s, piece)
    ensures forall t: nat, f: int :: PushGoes(occupied, c, s, t, f) ==> Lands(moves, s, t, f)
  {
    var rank := s / 8;
    var promotionRank, doublePushRank := if whiteToMove then 6 else 1, if whiteToMove then Rank4 else Rank5;
    var singlePush := BitScanForward(UAnd(tables.PawnPushPatterns[s][c], UNot(occupied)));
    SinglePush(tables, occupied, c, s);
    moves := [];
    if singlePush > -1 && rank == promotionRank {
      moves := AddPromotions(moves, s, singlePush, piece, Piece.None);
      NoDoublePush(occupied, c, s);
    } else if singlePush > -1 {
      Built(s, singlePush, piece, Piece.None, MoveFlags.None);
      moves := [NewMove(s as int32, singlePush as int32, piece as int32, Piece.None as int32, MoveFlags.None)];
      var doublePush := BitScanForward(UAnd(UAnd(tables.PawnPushPatterns[singlePush][c], UNot(occupied)), doublePushRank));
      SecondPush(tables, occupied, c, s, singlePush);
      if doublePush > -1 {
        Built(s, doublePush, piece, Piece.None, MoveFlags.DoublePawnPush);
        moves := moves + [NewMove(s as int32, doublePush as int32, piece as int32, Piece.None as int32, MoveFlags.DoublePawnPush)];
      }
    }
  }

  /** The single push found by `BitScanForward`: the one square forward if it is empty, -1
      otherwise. */
  lemma SinglePush(tables: Tables, occupied: ulong, c: int, s: int)
    requires tables.Valid() && 0 <= c < 2 && IsSquare(s)
    ensures var r := BitScanForward(UAnd(tables.PawnPushPatterns[s][c], UNot(occupied)));
      forall t :: Pushes(occupied, c, s, t) <==> r != -1 && t == r
  {
    var x := UAnd(tables.PawnPushPatterns[s][c], UNot(occupied));
    assert PushRow(s, tables.PawnPushPatterns[s]);
    ZeroBitsAll();
    forall t: nat
      ensures BitOf(x, t) <==> Pushes(occupied, c, s, t)
    {
      UAndAt(tables.PawnPushPatterns[s][c], UNot(occupied), t);
      UNotAt(occupied, t);
    }
  }

  /** The double push found by `BitScanForward`: the square after `u` if it is empty and on
      the side's fourth rank, -1 otherwise. */
  lemma SecondPush(tables: Tables, occupied: ulong, c: int, s: int, u: int)
    requires tables.Valid() && 0 <= c < 2 && IsSquare(s) && Pushes(occupied, c, s, u)
    ensures var r := BitScanForward(UAnd(UAnd(tables.PawnPushPatterns[u][c], UNot(occupied)), if c == 0 then Rank4 else Rank5));
      forall t :: DoublePush(occupied, c, s, t) <==> r != -1 && t == r
  {
    var rank := if c == 0 then 3 else 4;
    var y := UAnd(tables.PawnPushPatterns[u][c], UNot(occupied));
    var x := UAnd(y, RankMask(rank));
    assert RankMask(rank) == if c == 0 then Rank4 else Rank5;
    assert PushRow(u, tables.PawnPushPatterns[u]);
    ZeroBitsAll();
    forall t: nat
      ensures BitOf(x, t) <==> DoublePush(occupied, c, s, t)
    {
      UAndAt(y, RankMask(rank), t);
      UAndAt(tables.PawnPushPatterns[u][c], UNot(occupied), t);
      UNotAt(occupied, t);
      RankMaskAt(rank, t);
    }
  }

  /** The captures of `GeneratePawnMoves`: every square the pawn attacks that holds an
      opponent or is the en-passant square, as an en-passant capture, as four promotions on
      the promotion rank, or as a plain capture. */
  method CaptureMoves(tables: Tables, squares: array<int>, opponents: ulong, enpassant: int32, whiteToMove: bool,
                      c: int, s: int, piece: int) returns (moves: seq<Move>)
    requires tables.Valid() && Zobrist.IsMailbox(squares[..]) && whiteToMove == (c == 0) && 0 <= c < 2
    requires IsSquare(s) && 0 <= piece < 16
    ensures forall m | m in moves :: CaptureMade(m, squares[..], opponents, enpassant, c, s, piece)
    ensures forall t: nat, f: int :: CaptureGoes(opponents, enpassant, c, s, t, f) ==> Lands(moves, s, t, f)
  {
    var promotes := s / 8 == if whiteToMove then 6 else 1;
    var targets := UAnd(tables.PawnCapturePatterns[s][c], UOr(opponents, if enpassant != -1 then UShl(1, enpassant as int) else 0));
    var ends := Enumerate(targets);
    CaptureTargets(tables, opponents, enpassant, c, s);
    OnBoard(targets);
    moves := [];
    for i := 0 to |ends|
      invariant CapturesMade(moves, squares[..], opponents, enpassant, c, s, piece)
      invariant CapturesCovered(moves, ends, i, opponents, enpassant, c, s)
    {
      var added := CaptureTo(squares, opponents, enpassant, c, s, piece, ends[i], promotes);
      CaptureStep(moves, added, ends, i, squares[..], opponents, enpassant, c, s, piece);
      moves := moves + added;
    }
    CapturesFound(moves, ends, opponents, enpassant, c, s);
  }

  /** Every move in `moves` is a capture the pawn may make. */
  ghost predicate CapturesMade(moves: seq<Move>, mailbox: seq<int>, opponents: ulong, enpassant: int32, c: int, s: int, piece: int)
    requires |mailbox| == 64
  {
    forall m | m in moves :: CaptureMade(m, mailbox, opponents, enpassant, c, s, piece)
  }

  /** Every capture to one of the first `n` squares of `ends` is in `moves`. */
  ghost predicate CapturesCovered(moves: seq<Move>, ends: seq<int>, n: int, opponents: ulong, enpassant: int32, c: int, s: int) {
    n <= |ends| &&
    forall k, f | 0 <= k < n && CaptureGoes(opponents, enpassant, c, s, ends[k], f) :: Lands(moves, s, ends[k], f)
  }

  /** One turn of the capture loop keeps both invariants. */
  lemma CaptureStep(moves: seq<Move>, added: seq<Move>, ends: seq<int>, n: int, mailbox: seq<int>,
                    opponents: ulong, enpassant: int32, c: int, s: int, piece: int)
    requires |mailbox| == 64 && 0 <= n < |ends|
    requires CapturesMade(moves, mailbox, opponents, enpassant, c, s, piece) && CapturesMade(added, mailbox, opponents, enpassant, c, s, piece)
    requires CapturesCovered(moves, ends, n, opponents, enpassant, c, s)
    requires forall f | CaptureGoes(opponents, enpassant, c, s, ends[n], f) :: Lands(added, s, ends[n], f)
    ensures CapturesMade(moves + added, mailbox, opponents, enpassant, c, s, piece)
    ensures CapturesCovered(moves + added, ends, n + 1, opponents, enpassant, c, s)
  {
    forall k, f | 0 <= k < n + 1 && CaptureGoes(opponents, enpassant, c, s, ends[k], f)
      ensures Lands(moves + added, s, ends[k], f)
    {
      LandsAppend(moves, added, s, ends[k], f);
    }
  }

  /** After the loop every capture is covered: each target is one of the enumerated squares. */
  lemma CapturesFound(moves: seq<Move>, ends: seq<int>, opponents: ulong, enpassant: int32, c: int, s: int)
    requires CapturesCovered(moves, ends, |ends|, opponents, enpassant, c, s)
    requires forall t: nat :: t in ends <==> Captures(opponents, enpassant, c, s, t)
    ensures forall t: nat, f: int :: CaptureGoes(opponents, enpassant, c, s, t, f) ==> Lands(moves, s, t, f)
  {
    forall t: nat, f: int | CaptureGoes(opponents, enpassant, c, s, t, f)
      ensures Lands(moves, s, t, f)
    {
      var k :| 0 <= k < |ends| && ends[k] == t;
    }
  }

  /** The squares `Enumerate` yields for the capture mask are exactly the capture targets. */
  lemma CaptureTargets(tables: Tables, opponents: ulong, enpassant: int32, c: int, s: int)
    requires tables.Valid() && 0 <= c < 2 && IsSquare(s)
    ensures var targets := UAnd(tables.PawnCapturePatterns[s][c],
        UOr(opponents, if enpassant != -1 then UShl(1, enpassant as int) else 0));
      forall t: nat :: t in Squares(targets) <==> Captures(opponents, enpassant, c, s, t)
  {
    var shifted: ulong := if enpassant != -1 then UShl(1, enpassant as int) else 0;
    var targets := UAnd(tables.PawnCapturePatterns[s][c], UOr(opponents, shifted));
    assert CaptureRow(s, tables.PawnCapturePatterns[s]);
    SquaresExact(targets);
    ZeroBitsAll();
    forall t: nat
      ensures BitOf(targets, t) <==> PawnAttack(s, c, t) && (BitOf(opponents, t) || (enpassant != -1 && t == enpassant as int % 64))
    {
      UAndAt(tables.PawnCapturePatterns[s][c], UOr(opponents, shifted), t);
      UOrAt(opponents, shifted, t);
      if enpassant != -1 {
        UShlAt(1, enpassant as int, t);
        if t >= enpassant as int % 64 {
          BitOfPow2(0, t - enpassant as int % 64);
        }
      }
    }
  }

  /** The moves one capture target yields. */
  method CaptureTo(squares: array<int>, opponents: ulong, enpassant: int32, c: int, s: int, piece: int, t: int, promotes: bool)
    returns (added: seq<Move>)
    requires Zobrist.IsMailbox(squares[..]) && 0 <= c < 2 && IsSquare(s) && 0 <= piece < 16
    requires Captures(opponents, enpassant, c, s, t) && promotes == Promotes(c, s)
    ensures CapturesMade(added, squares[..], opponents, enpassant, c, s, piece)
    ensures forall f | CaptureGoes(opponents, enpassant, c, s, t, f) :: Lands(added, s, t, f)
  {
    assert squares[t] == squares[..][t];
    if t == enpassant as int {
      Built(s, t, piece, Piece.None, MoveFlags.EnpassantCapture);
      added := [NewMove(s as int32, t as int32, piece as int32, Piece.None as int32, MoveFlags.EnpassantCapture)];
      assert added[0] in added;
    } else if promotes {
      added := AddPromotions([], s, t, piece, squares[t]);
    } else {
      Built(s, t, piece, squares[t], MoveFlags.None);
      added := [NewMove(s as int32, t as int32, piece as int32, squares[t] as int32, MoveFlags.None)];
      assert added[0] in added;
    }
  }

  /** A pawn about to promote has no double push. */
  lemma NoDoublePush(occupied: ulong, c: int, s: int)
    requires Promotes(c, s) && 0 <= c < 2
    ensures forall t :: !DoublePush(occupied, c, s, t)
  {
  }

  /** `for (int promotion = 0; promotion < 4; moves.Add(new Move(s, t, piece, taken, 1 <<
      promotion)), promotion++)`: the four promotions to `t` join `moves`. */
  method AddPromotions(moves: seq<Move>, s: int, t: int, piece: int, taken: int) returns (result: seq<Move>)
    requires IsSquare(s) && IsSquare(t) && 0 <= piece < 16 && 0 <= taken < 16
    ensures forall m | m in result :: m in moves || (Goes(m, s, t, piece, taken, m.Flag) && PawnFlag(true, m.Flag))
    ensures forall m | m in moves :: m in result
    ensures forall f | PawnFlag(true, f) :: Lands(result, s, t, f)
  {
    result := moves;
    for promotion := 0 to 4
      invariant Promoted(moves, result, promotion, s, t, piece, taken)
    {
      PromotionFlag(promotion);
      var flag := Pow2(promotion);
      Built(s, t, piece, taken, flag);
      var m := NewMove(s as int32, t as int32, piece as int32, taken as int32, flag);
      PromotedSnoc(moves, result, promotion, s, t, piece, taken, m);
      result := result + [m];
    }
    PromotedAll(moves, result, s, t, piece, taken);
  }

  /** `1 << promotion` for the four turns of the loop is one of the promotion flags. */
  lemma PromotionFlag(promotion: int)
    requires 0 <= promotion < 4
    ensures Pow2(promotion) < 256 && PawnFlag(true, Pow2(promotion))
  {
    assert Pow2(0) == 1 && Pow2(1) == 2 && Pow2(2) == 4 && Pow2(3) == 8;
  }

  /** After `n` turns: `moves` followed by the promotions with flags `1 << 0` to `1 << (n - 1)`. */
  ghost predicate Promoted(moves: seq<Move>, result: seq<Move>, n: int, s: int, t: int, piece: int, taken: int) {
    0 <= n && |result| == |moves| + n && result[..|moves|] == moves &&
    forall k | 0 <= k < n :: Goes(result[|moves| + k], s, t, piece, taken, Pow2(k))
  }

  /** One more turn of the loop. */
  lemma PromotedSnoc(moves: seq<Move>, result: seq<Move>, n: int, s: int, t: int, piece: int, taken: int, m: Move)
    requires Promoted(moves, result, n, s, t, piece, taken) && Goes(m, s, t, piece, taken, Pow2(n))
    ensures Promoted(moves, result + [m], n + 1, s, t, piece, taken)
  {
    assert (result + [m])[..|moves|] == result[..|moves|];
  }

  /** The four turns give the contract of `AddPromotions`. */
  lemma PromotedAll(moves: seq<Move>, result: seq<Move>, s: int, t: int, piece: int, taken: int)
    requires Promoted(moves, result, 4, s, t, piece, taken)
    ensures forall m | m in result :: m in moves || (Goes(m, s, t, piece, taken, m.Flag) && PawnFlag(true, m.Flag))
    ensures forall m | m in moves :: m in result
    ensures forall f | PawnFlag(true, f) :: Lands(result, s, t, f)
  {
    PromotedOnly(moves, result, s, t, piece, taken);
    PromotedKept(moves, result, s, t, piece, taken);
    PromotedEach(moves, result, s, t, piece, taken);
  }

  /** After the four turns, every move is an old one or a promotion from `s` to `t`. */
  lemma PromotedOnly(moves: seq<Move>, result: seq<Move>, s: int, t: int, piece: int, taken: int)
    requires Promoted(moves, result, 4, s, t, piece, taken)
    ensures forall m | m in result :: m in moves || (Goes(m, s, t, piece, taken, m.Flag) && PawnFlag(true, m.Flag))
  {
    assert Pow2(0) == 1 && Pow2(1) == 2 && Pow2(2) == 4 && Pow2(3) == 8;
    forall m | m in result
      ensures m in moves || (Goes(m, s, t, piece, taken, m.Flag) && PawnFlag(true, m.Flag))
    {
      var i :| 0 <= i < |result| && result[i] == m;
      if i < |moves| {
        assert m == result[..|moves|][i];
      } else {
        var k := i - |moves|;
        assert Goes(result[|moves| + k], s, t, piece, taken, Pow2(k));
        assert m.Flag == Pow2(k) && 0 <= k < 4;
      }
    }
  }

  /** After the four turns, every old move is still there. */
  lemma PromotedKept(moves: seq<Move>, result: seq<Move>, s: int, t: int, piece: int, taken: int)
    requires Promoted(moves, result, 4, s, t, piece, taken)
    ensures forall m | m in moves :: m in result
  {
    forall m | m in moves
      ensures m in result
    {
      var i :| 0 <= i < |moves| && moves[i] == m;
      assert result[..|moves|][i] == result[i];
    }
  }

  /** After the four turns, every promotion flag lands on `t`. */
  lemma PromotedEach(moves: seq<Move>, result: seq<Move>, s: int, t: int, piece: int, taken: int)
    requires Promoted(moves, result, 4, s, t, piece, taken)
    ensures forall f | PawnFlag(true, f) :: Lands(result, s, t, f)
  {
    assert Pow2(0) == 1 && Pow2(1) == 2 && Pow2(2) == 4 && Pow2(3) == 8;
    forall f | PawnFlag(true, f)
      ensures Lands(result, s, t, f)
    {
      var k := if f == 1 then 0 else if f == 2 then 1 else if f == 4 then 2 else 3;
      assert Goes(result[|moves| + k], s, t, piece, taken, Pow2(k));
      assert result[|moves| + k] in result;
    }
  }

  /** Adding a move keeps every move there was. */
  lemma LandsKept(moves: seq<Move>, m: Move, s: int, t: int)
    ensures forall f :: Lands(moves, s, t, f) ==> Lands(moves + [m], s, t, f)
  {
    forall f | Lands(moves, s, t, f)
      ensures Lands(moves + [m], s, t, f)
    {
      var n :| n in moves && Start(n) == s && End(n) == t && n.Flag == f;
      assert n in moves + [m];
    }
  }

  /** Zero has no squares. */
  lemma ZeroBitsAll()
    ensures forall t: nat :: !BitOf(0, t)
  {
    forall t: nat
      ensures !BitOf(0, t)
    {
      ZeroBits(t);
    }
  }
}
