// The board of the chess engine (ConsoleApp/Chess/Board.cs, BoardHistory.cs).
//
// The board keeps the same position four ways: a mailbox of 64 piece codes, one bitboard
// per piece code, one per colour and the occupied squares; besides, the king squares, the
// side to move, the castling rights, the en-passant square, the two move counters, the
// position key and a history of the moves made. `MakeMove` and `Takeback` update all of it
// in place.
//
// The first half of this module describes a position as a value and says what each of the
// two operations does to it; the class `Board` below is proved to follow that description.

module ChessBoard {
  import opened CSharp
  import opened ULong
  import opened Bitboard
  import opened PrecomputedMoveData
  import Piece
  import Flags
  import MoveFlags
  import opened Moves
  import Attacks
  import Zobrist

  // ------------------------------------------------------------ move fields

  /** The starting square of a move, as a number. */
  function Start(m: Move): (s: nat)
    ensures s < 64
  {
    AndSmall(m.From, SquareMask);
    m.StartingSquare() as nat
  }

  /** The ending square of a move, as a number. */
  function End(m: Move): (e: nat)
    ensures e < 64
  {
    AndSmall(m.To, SquareMask);
    m.EndingSquare() as nat
  }

  /** The moving piece, as a number. */
  function Mover(m: Move): (piece: nat)
    ensures piece < 32
  {
    PieceField(m.From);
    m.FriendlyPiece() as nat
  }

  /** The piece on the ending square, as a number. */
  function Taken(m: Move): (piece: nat)
    ensures piece < 32
  {
    PieceField(m.To);
    m.OpponentPiece() as nat
  }

  /** The piece field of a packed square holds a number below 32. */
  lemma PieceField(x: int32)
    ensures 0 <= ShiftRight(And(x, PieceMask), 6) < 32
  {
    var v := And(x, PieceMask);
    AndSmall(x, PieceMask);
    assert Pow2(6) == 64;
    assert ShiftRight(v, 6) as int == v as int / 64;
  }

  /** `a[i] = x;` */
  method WriteOne(a: array<int>, i: int, x: int)
    requires 0 <= i < a.Length
    modifies a
    ensures a[..] == old(a[..])[i := x]
  {
    a[i] := x;
  }

  /** `a[i] = x; a[j] = y;` */
  method WriteTwo(a: array<int>, i: int, x: int, j: int, y: int)
    requires 0 <= i < a.Length && 0 <= j < a.Length
    modifies a
    ensures a[..] == old(a[..])[i := x][j := y]
  {
    a[i] := x;
    a[j] := y;
  }

  /** The mutually exclusive branches `MakeMove` and `Takeback` take after moving the piece. */
  datatype Special = Promotion | Enpassant | Kingside | Queenside | Plain

  function SpecialOf(m: Move): Special {
    if m.IsPromotion() then Promotion
    else if m.IsEnpassantCapture() then Enpassant
    else if m.IsKingsideCastling() then Kingside
    else if m.IsQueensideCastling() then Queenside
    else Plain
  }

  // -------------------------------------------------------------- positions

  /** Everything the board holds except its history and the derived attack map and key. */
  datatype Position = Position(
    squares: seq<int>, kings: seq<int>, pieces: seq<ulong>, byColour: seq<ulong>, occupied: ulong,
    whiteToMove: bool, colourToMove: int, friendlyIndex: int,
    castlings: int, enpassant: int32, halfMoves: int32, fullMoves: int32)

  /** The lengths of the arrays and the agreement of the three side-to-move fields. */
  predicate Shaped(p: Position) {
    Zobrist.IsMailbox(p.squares) && |p.kings| == 2 && |p.pieces| == 16 && |p.byColour| == 2 &&
    (p.colourToMove == Piece.White || p.colourToMove == Piece.Black) &&
    p.whiteToMove == (p.colourToMove == Piece.White) && p.friendlyIndex == p.colourToMove / 8 &&
    0 <= p.castlings < 16
  }

  /** One entry of the history: what `MakeMove` cannot recompute when the move is taken back. */
  datatype BoardHistory = BoardHistory(Key: ulong, LastMove: Move, Castlings: int, EnpassantSquare: int32,
    HalfMoveCount: int32, FullMoveCount: int32)

  /** The entry `MakeMove` pushes before it changes anything. */
  function Entry(p: Position, m: Move, key: ulong): BoardHistory {
    BoardHistory(key, m, p.castlings, p.enpassant, p.halfMoves, p.fullMoves)
  }

  /** The square of the pawn an en-passant capture removes: one rank behind the en-passant
      square, seen from the side that captures. */
  function PawnSquare(enpassant: int32, whiteToMove: bool): int {
    enpassant as int + (if whiteToMove then -8 else 8)
  }

  /** The squares a move reads and writes exist: the move's piece codes are below 16, an
      en-passant capture's pawn square and a castling's rook squares are on the board.
      For the pawn square this also rules out the wrap-around of the `int` addition. */
  predicate Reachable(m: Move, enpassant: int32, whiteToMove: bool) {
    Mover(m) < 16 && Taken(m) < 16 &&
    match SpecialOf(m)
    case Enpassant => IsSquare(PawnSquare(enpassant, whiteToMove))
    case Kingside => 1 <= End(m) <= 62
    case Queenside => 2 <= End(m) <= 62
    case _ => true
  }

  /** A move `MakeMove` can run on a position without an index out of range. */
  predicate Playable(p: Position, m: Move) {
    Shaped(p) && Reachable(m, p.enpassant, p.whiteToMove)
  }

  /** The rook of a colour. */
  function RookOf(colour: int): (piece: nat)
    requires colour == Piece.White || colour == Piece.Black
    ensures piece < 16
  {
    Piece.WithColour(Piece.Rook, colour)
  }

  /** The pawn of the colour not given. */
  function OpponentPawn(colour: int): (piece: nat)
    requires colour == Piece.White || colour == Piece.Black
    ensures piece < 16
  {
    Piece.WithColour(Piece.Pawn, Piece.OpponentOf(colour))
  }

  /** `(square >> 3, square & 7)` switched to the castling right a rook on that corner
      carries; no right for any other square. */
  function RightAt(square: nat): (right: nat)
    requires square < 64
    ensures right in {Flags.None, Flags.WhiteKingsideCastling, Flags.WhiteQueensideCastling,
      Flags.BlackKingsideCastling, Flags.BlackQueensideCastling}
  {
    if Rank(square) == 0 && File(square) == 0 then Flags.WhiteQueensideCastling
    else if Rank(square) == 0 && File(square) == 7 then Flags.WhiteKingsideCastling
    else if Rank(square) == 7 && File(square) == 0 then Flags.BlackQueensideCastling
    else if Rank(square) == 7 && File(square) == 7 then Flags.BlackKingsideCastling
    else Flags.None
  }

  /** `castlings & (AllCastlings ^ RightAt(square))`: the rights without the one of the rook
      on that corner. */
  function DropRight(castlings: int, square: nat): (c: int)
    requires 0 <= castlings < 16 && square < 64
    ensures 0 <= c <= castlings
  {
    AndBitsBound(castlings, XorBits(Flags.AllCastlings, RightAt(square)));
    AndBits(castlings, XorBits(Flags.AllCastlings, RightAt(square)))
  }

  /** `castlings & (whiteToMove ? BlackCastlings : WhiteCastlings)`: the rights without both
      of the side to move. */
  function DropSide(castlings: int, whiteToMove: bool): (c: int)
    requires 0 <= castlings < 16
    ensures 0 <= c <= castlings
  {
    var keep := if whiteToMove then Flags.BlackCastlings else Flags.WhiteCastlings;
    AndBitsBound(castlings, keep);
    AndBits(castlings, keep)
  }

  /** Bit `k` of the rights after `DropRight`: the rights kept are those held before, except
      the one of the rook on that corner. */
  lemma DropRightBits(castlings: int, square: nat, k: nat)
    requires 0 <= castlings < 16 && square < 64
    ensures BitOf(DropRight(castlings, square), k) <==> BitOf(castlings, k) && !BitOf(RightAt(square), k)
  {
    var right := RightAt(square);
    AndBitAt(castlings, XorBits(Flags.AllCastlings, right), k);
    XorBitAt(Flags.AllCastlings, right, k);
    assert Pow2(4) == 16;
    if k < 4 {
      BitOfLowMask(4, k);
    } else {
      BitOfHigh(castlings, 4, k);
    }
  }

  /** Bit `k` of the rights after `DropSide`: the rights kept are those held before, except
      both of the side to move. */
  lemma DropSideBits(castlings: int, whiteToMove: bool, k: nat)
    requires 0 <= castlings < 16
    ensures var side := if whiteToMove then Flags.WhiteCastlings else Flags.BlackCastlings;
      BitOf(DropSide(castlings, whiteToMove), k) <==> BitOf(castlings, k) && !BitOf(side, k)
  {
    var keep := if whiteToMove then Flags.BlackCastlings else Flags.WhiteCastlings;
    AndBitAt(castlings, keep, k);
    assert Pow2(4) == 16;
    if k >= 4 {
      BitOfHigh(castlings, 4, k);
      BitOfHigh(Flags.WhiteCastlings, 4, k);
      BitOfHigh(Flags.BlackCastlings, 4, k);
    } else {
      assert k == 0 || k == 1 || k == 2 || k == 3;
    }
  }

  // --------------------------------------------------------- bitboard updates

  /** One `bitboards[index] ^= bits` statement. */
  datatype Toggle = Toggle(index: nat, bits: ulong)

  /** Everything the statements xor into entry `k`. */
  function XorAt(toggles: seq<Toggle>, k: nat): ulong
    decreases |toggles|
  {
    if toggles == [] then 0
    else
      var t := toggles[|toggles| - 1];
      UXor(XorAt(toggles[..|toggles| - 1], k), if t.index == k then t.bits else 0)
  }

  /** The bitboards after the statements: each one xor-ed with everything its statements
      xor into it. The board's statements index inside their arrays (the methods below
      check it as they write them); one that did not would throw, and counts for nothing
      here. */
  function Apply(bitboards: seq<ulong>, toggles: seq<Toggle>): (r: seq<ulong>)
    ensures |r| == |bitboards|
  {
    seq(|bitboards|, k requires 0 <= k < |bitboards| => UXor(bitboards[k], XorAt(toggles, k)))
  }

  lemma XorAtSnoc(toggles: seq<Toggle>, t: Toggle, k: nat)
    ensures XorAt(toggles + [t], k) == UXor(XorAt(toggles, k), if t.index == k then t.bits else 0)
  {
    assert (toggles + [t])[..|toggles|] == toggles;
  }

  /** Running the statements one after the other: one more statement updates the one entry
      it names. */
  lemma ApplySnoc(bitboards: seq<ulong>, toggles: seq<Toggle>, t: Toggle)
    requires t.index < |bitboards|
    ensures Apply(bitboards, toggles + [t]) ==
      Apply(bitboards, toggles)[t.index := UXor(Apply(bitboards, toggles)[t.index], t.bits)]
  {
    forall k | 0 <= k < |bitboards|
      ensures Apply(bitboards, toggles + [t])[k] ==
        Apply(bitboards, toggles)[t.index := UXor(Apply(bitboards, toggles)[t.index], t.bits)][k]
    {
      XorAtSnoc(toggles, t, k);
      var x := XorAt(toggles, k);
      UXorAlgebra(bitboards[k], x, if t.index == k then t.bits else 0);
      UXorAlgebra(x, 0, 0);
    }
  }

  /** No statement changes nothing. */
  lemma ApplyNone(bitboards: seq<ulong>)
    ensures Apply(bitboards, []) == bitboards
  {
    forall k | 0 <= k < |bitboards|
      ensures Apply(bitboards, [])[k] == bitboards[k]
    {
      UXorAlgebra(bitboards[k], 0, 0);
    }
  }

  lemma UOrCommute(a: ulong, b: ulong)
    ensures UOr(a, b) == UOr(b, a)
  {
    forall k: nat
      ensures BitOf(UOr(a, b), k) == BitOf(UOr(b, a), k)
    {
      UOrAt(a, b, k);
      UOrAt(b, a, k);
    }
    BitsEqual(UOr(a, b), UOr(b, a));
  }

  /** `1UL << a | 1UL << b`: the two squares a castling rook moves between. */
  function RookBits(a: nat, b: nat): ulong
    requires a < 64 && b < 64
  {
    UOr(SquareBit(a), SquareBit(b))
  }

  /** The two squares of a castling rook, in either order. */
  lemma RookBitsSwap(a: nat, b: nat)
    requires a < 64 && b < 64
    ensures RookBits(a, b) == RookBits(b, a)
  {
    UOrCommute(SquareBit(a), SquareBit(b));
  }

  // ------------------------------------------------------------- MakeMove

  /** The statements both `MakeMove` and `Takeback` start with on the piece bitboards: the
      mover leaves one square for the other, and a captured piece leaves the ending square. */
  function PieceMoves(m: Move): seq<Toggle> {
    var s, e := Start(m), End(m);
    [Toggle(Mover(m), UOr(SquareBit(s), SquareBit(e)))] + if m.IsCapture() then [Toggle(Taken(m), SquareBit(e))] else []
  }

  /** The same on the colour bitboards, for the side with index `fi`. */
  function ColourMoves(m: Move, fi: nat): seq<Toggle> {
    var s, e := Start(m), End(m);
    [Toggle(fi, UOr(SquareBit(s), SquareBit(e)))] + if m.IsCapture() then [Toggle(Piece.OtherIndex(fi), SquareBit(e))] else []
  }

  // `MakeMove` takes the queenside rook from `End - back`; the board writes `back == 1`,
  // and the corner the rook stands on, and `Takeback` puts it back to, is `back == 2`.

  function MoveSquares(p: Position, m: Move, back: nat): (squares: seq<int>)
    requires Playable(p, m) && 1 <= back <= 2
    ensures Zobrist.IsMailbox(squares)
  {
    var s, e := Start(m), End(m);
    var squares := p.squares[s := Piece.None][e := Mover(m)];
    match SpecialOf(m)
    case Promotion => squares[e := Piece.WithColour(m.PromotionType(), p.colourToMove)]
    case Enpassant => squares[PawnSquare(p.enpassant, p.whiteToMove) := Piece.None]
    case Kingside => squares[e + 1 := Piece.None][e - 1 := RookOf(p.colourToMove)]
    case Queenside => squares[e - back := Piece.None][e + 1 := RookOf(p.colourToMove)]
    case Plain => squares
  }

  function MovePieceToggles(p: Position, m: Move, back: nat): (toggles: seq<Toggle>)
    requires Playable(p, m) && 1 <= back <= 2
  {
    PieceMoves(m) + MoveSpecialPieces(p, m, back)
  }

  /** The statements of the special branch of `MakeMove` on the piece bitboards. */
  function MoveSpecialPieces(p: Position, m: Move, back: nat): (toggles: seq<Toggle>)
    requires Playable(p, m) && 1 <= back <= 2
  {
    var e := End(m);
    match SpecialOf(m)
    case Promotion => [Toggle(Mover(m), SquareBit(e)), Toggle(Piece.WithColour(m.PromotionType(), p.colourToMove), SquareBit(e))]
    case Enpassant => [Toggle(OpponentPawn(p.colourToMove), SquareBit(PawnSquare(p.enpassant, p.whiteToMove)))]
    case Kingside => [Toggle(RookOf(p.colourToMove), RookBits(e - 1, e + 1))]
    case Queenside => [Toggle(RookOf(p.colourToMove), RookBits(e + 1, e - back))]
    case Plain => []
  }

  function MoveColourToggles(p: Position, m: Move, back: nat): (toggles: seq<Toggle>)
    requires Playable(p, m) && 1 <= back <= 2
  {
    ColourMoves(m, p.friendlyIndex) + MoveSpecialColours(p, m, back)
  }

  /** The statements of the special branch of `MakeMove` on the colour bitboards. */
  function MoveSpecialColours(p: Position, m: Move, back: nat): (toggles: seq<Toggle>)
    requires Playable(p, m) && 1 <= back <= 2
  {
    var e := End(m);
    var fi := p.friendlyIndex;
    var oi := Piece.OtherIndex(fi);
    match SpecialOf(m)
    case Enpassant => [Toggle(oi, SquareBit(PawnSquare(p.enpassant, p.whiteToMove)))]
    case Kingside => [Toggle(fi, RookBits(e - 1, e + 1))]
    case Queenside => [Toggle(fi, RookBits(e + 1, e - back))]
    case _ => []
  }

  /** The rights after a capture: a captured rook takes the right of its corner with it. */
  function CaptureCastlings(p: Position, m: Move): (castlings: int)
    requires Playable(p, m)
    ensures 0 <= castlings <= p.castlings
  {
    if m.IsCapture() && Piece.Type(Taken(m)) == Piece.Rook then DropRight(p.castlings, End(m)) else p.castlings
  }

  function MoveCastlings(p: Position, m: Move): (castlings: int)
    requires Playable(p, m)
    ensures 0 <= castlings <= p.castlings
  {
    var c := CaptureCastlings(p, m);
    match SpecialOf(m)
    case Kingside => DropSide(c, p.whiteToMove)
    case Queenside => DropSide(c, p.whiteToMove)
    case Plain =>
      if Start(m) == p.kings[p.friendlyIndex] then DropSide(c, p.whiteToMove)
      else if Piece.Type(Mover(m)) == Piece.Rook then DropRight(c, Start(m))
      else c
    case _ => c
  }

  /** The rights a move keeps: it never grants one, and it drops only the rights of the
      side to move (when the king moves or castles) and those of the rooks on the corners it
      leaves or lands on. */
  lemma MoveCastlingsBits(p: Position, m: Move, k: nat)
    requires Playable(p, m)
    ensures BitOf(MoveCastlings(p, m), k) ==> BitOf(p.castlings, k)
    ensures var side := if p.whiteToMove then Flags.WhiteCastlings else Flags.BlackCastlings;
      BitOf(p.castlings, k) && !BitOf(side, k) && !BitOf(RightAt(Start(m)), k) && !BitOf(RightAt(End(m)), k) ==>
        BitOf(MoveCastlings(p, m), k)
  {
    var c := CaptureCastlings(p, m);
    if m.IsCapture() && Piece.Type(Taken(m)) == Piece.Rook {
      DropRightBits(p.castlings, End(m), k);
    }
    DropSideBits(c, p.whiteToMove, k);
    DropRightBits(c, Start(m), k);
  }

  function MoveKings(p: Position, m: Move): (kings: seq<int>)
    requires Playable(p, m)
    ensures |kings| == 2
  {
    match SpecialOf(m)
    case Kingside => p.kings[p.friendlyIndex := End(m)]
    case Queenside => p.kings[p.friendlyIndex := End(m)]
    case Plain => if Start(m) == p.kings[p.friendlyIndex] then p.kings[p.friendlyIndex := End(m)] else p.kings
    case _ => p.kings
  }

  /** The position after `MakeMove` with the queenside rook taken from `End - back`, before
      the legality test. */
  function AfterMoveWith(p: Position, m: Move, back: nat): (q: Position)
    requires Playable(p, m) && 1 <= back <= 2
    ensures Shaped(q)
  {
    var byColour := Apply(p.byColour, MoveColourToggles(p, m, back));
    var colour := Piece.OpponentOf(p.colourToMove);
    Position(
      MoveSquares(p, m, back), MoveKings(p, m), Apply(p.pieces, MovePieceToggles(p, m, back)),
      byColour, UOr(byColour[0], byColour[1]),
      !p.whiteToMove, colour, colour / 8,
      MoveCastlings(p, m),
      if m.IsDoublePawnPush() then (Start(m) + if p.whiteToMove then 8 else -8) as int32 else -1,
      if m.IsHalfmove() then Add(p.halfMoves, 1) else 0,
      if !p.whiteToMove then Add(p.fullMoves, 1) else p.fullMoves)
  }

  /** The position after the move as the board makes it, queenside rook from `End - 1`. */
  function AfterMoveAsWritten(p: Position, m: Move): (q: Position)
    requires Playable(p, m)
    ensures Shaped(q)
  {
    AfterMoveWith(p, m, 1)
  }

  /** The position after the move with the queenside rook taken from its corner. */
  function AfterMove(p: Position, m: Move): (q: Position)
    requires Playable(p, m)
    ensures Shaped(q)
  {
    AfterMoveWith(p, m, 2)
  }

  // ------------------------------------------------------------- Takeback

  /** A history entry `Takeback` can apply to a position without an index out of range: the
      side that made the move is the one not to move now. */
  predicate Undoable(q: Position, h: BoardHistory) {
    Shaped(q) && 0 <= h.Castlings < 16 && Reachable(h.LastMove, h.EnpassantSquare, !q.whiteToMove)
  }

  function TakeSquares(q: Position, h: BoardHistory): (squares: seq<int>)
    requires Undoable(q, h)
    ensures Zobrist.IsMailbox(squares)
  {
    var m := h.LastMove;
    var s, e := Start(m), End(m);
    var colour := Piece.OpponentOf(q.colourToMove);
    SetSquare(q.squares, s, Mover(m));
    SetSquare(q.squares[s := Mover(m)], e, Taken(m));
    var squares := q.squares[s := Mover(m)][e := Taken(m)];
    match SpecialOf(m)
    case Enpassant =>
      SetSquare(squares, PawnSquare(h.EnpassantSquare, !q.whiteToMove), OpponentPawn(colour));
      squares[PawnSquare(h.EnpassantSquare, !q.whiteToMove) := OpponentPawn(colour)]
    case Kingside =>
      SetSquare(squares, e + 1, RookOf(colour));
      SetSquare(squares[e + 1 := RookOf(colour)], e - 1, Piece.None);
      squares[e + 1 := RookOf(colour)][e - 1 := Piece.None]
    case Queenside =>
      SetSquare(squares, e - 2, RookOf(colour));
      SetSquare(squares[e - 2 := RookOf(colour)], e + 1, Piece.None);
      squares[e - 2 := RookOf(colour)][e + 1 := Piece.None]
    case _ => squares
  }

  /** Putting a piece code on a square of a mailbox leaves a mailbox. */
  lemma SetSquare(squares: seq<int>, square: int, piece: int)
    requires Zobrist.IsMailbox(squares) && 0 <= square < 64 && 0 <= piece < 16
    ensures Zobrist.IsMailbox(squares[square := piece])
  {
  }

  function TakePieceToggles(q: Position, h: BoardHistory): (toggles: seq<Toggle>)
    requires Undoable(q, h)
  {
    PieceMoves(h.LastMove) + TakeSpecialPieces(q, h)
  }

  /** The statements of the special branch of `Takeback` on the piece bitboards. */
  function TakeSpecialPieces(q: Position, h: BoardHistory): (toggles: seq<Toggle>)
    requires Undoable(q, h)
  {
    var m := h.LastMove;
    var e := End(m);
    var colour := Piece.OpponentOf(q.colourToMove);
    match SpecialOf(m)
    case Promotion => [Toggle(Mover(m), SquareBit(e)), Toggle(Piece.WithColour(m.PromotionType(), colour), SquareBit(e))]
    case Enpassant => [Toggle(OpponentPawn(colour), SquareBit(PawnSquare(h.EnpassantSquare, !q.whiteToMove)))]
    case Kingside => [Toggle(RookOf(colour), RookBits(e + 1, e - 1))]
    case Queenside => [Toggle(RookOf(colour), RookBits(e - 2, e + 1))]
    case Plain => []
  }

  function TakeColourToggles(q: Position, h: BoardHistory): (toggles: seq<Toggle>)
    requires Undoable(q, h)
  {
    ColourMoves(h.LastMove, Piece.OpponentOf(q.colourToMove) / 8) + TakeSpecialColours(q, h)
  }

  /** The statements of the special branch of `Takeback` on the colour bitboards. */
  function TakeSpecialColours(q: Position, h: BoardHistory): (toggles: seq<Toggle>)
    requires Undoable(q, h)
  {
    var m := h.LastMove;
    var e := End(m);
    var fi := Piece.OpponentOf(q.colourToMove) / 8;
    var oi := Piece.OtherIndex(fi);
    match SpecialOf(m)
    case Enpassant => [Toggle(oi, SquareBit(PawnSquare(h.EnpassantSquare, !q.whiteToMove)))]
    case Kingside => [Toggle(fi, RookBits(e + 1, e - 1))]
    case Queenside => [Toggle(fi, RookBits(e - 2, e + 1))]
    case _ => []
  }

  function TakeKings(q: Position, h: BoardHistory): (kings: seq<int>)
    requires Undoable(q, h)
    ensures |kings| == 2
  {
    var m := h.LastMove;
    var fi := Piece.OpponentOf(q.colourToMove) / 8;
    match SpecialOf(m)
    case Kingside => q.kings[fi := Start(m)]
    case Queenside => q.kings[fi := Start(m)]
    case Plain => if End(m) == q.kings[fi] then q.kings[fi := Start(m)] else q.kings
    case _ => q.kings
  }

  /** The position after `Takeback` with history entry `h`. */
  function AfterTakeback(q: Position, h: BoardHistory): (r: Position)
    requires Undoable(q, h)
    ensures Shaped(r)
  {
    var byColour := Apply(q.byColour, TakeColourToggles(q, h));
    var colour := Piece.OpponentOf(q.colourToMove);
    Position(
      TakeSquares(q, h), TakeKings(q, h), Apply(q.pieces, TakePieceToggles(q, h)),
      byColour, UOr(byColour[0], byColour[1]),
      !q.whiteToMove, colour, colour / 8,
      h.Castlings, h.EnpassantSquare, h.HalfMoveCount, h.FullMoveCount)
  }

  // ----------------------------------------------------------- round trip

  /** A move that fits the position it is made on: it starts on its own piece and ends on
      the piece it names, does not land on the mover's king, an en-passant capture finds the
      enemy pawn where it should be, and a castling king starts on its king square with the
      rook in the corner and an empty square where the rook goes. The board's occupied set
      is the union of its colour bitboards. */
  predicate Restorable(p: Position, m: Move) {
    Playable(p, m) &&
    var s, e, fi := Start(m), End(m), p.friendlyIndex;
    s != e && p.squares[s] == Mover(m) && p.squares[e] == Taken(m) && p.kings[fi] != e &&
    p.occupied == UOr(p.byColour[0], p.byColour[1]) &&
    match SpecialOf(m)
    case Enpassant =>
      var ps := PawnSquare(p.enpassant, p.whiteToMove);
      ps != s && ps != e && p.squares[ps] == OpponentPawn(p.colourToMove)
    case Kingside =>
      s != e - 1 && s != e + 1 && p.kings[fi] == s &&
      p.squares[e - 1] == Piece.None && p.squares[e + 1] == RookOf(p.colourToMove)
    case Queenside =>
      s != e - 2 && s != e + 1 && p.kings[fi] == s &&
      p.squares[e - 2] == RookOf(p.colourToMove) && p.squares[e + 1] == Piece.None
    case _ => true
  }

  lemma SideBack(colour: int)
    requires colour == Piece.White || colour == Piece.Black
    ensures Piece.OpponentOf(Piece.OpponentOf(colour)) == colour
  {
  }

  /** The fields of the position after a move, one by one. */
  lemma MoveFields(p: Position, m: Move, back: nat)
    requires Playable(p, m) && 1 <= back <= 2
    ensures var q := AfterMoveWith(p, m, back);
      q.squares == MoveSquares(p, m, back) && q.kings == MoveKings(p, m) &&
      q.pieces == Apply(p.pieces, MovePieceToggles(p, m, back)) &&
      q.byColour == Apply(p.byColour, MoveColourToggles(p, m, back)) &&
      q.whiteToMove == !p.whiteToMove && q.colourToMove == Piece.OpponentOf(p.colourToMove) &&
      q.castlings == MoveCastlings(p, m)
  {
  }

  /** The fields of the position after a takeback, one by one. */
  lemma TakeFields(q: Position, h: BoardHistory)
    requires Undoable(q, h)
    ensures var r := AfterTakeback(q, h);
      r.squares == TakeSquares(q, h) && r.kings == TakeKings(q, h) &&
      r.pieces == Apply(q.pieces, TakePieceToggles(q, h)) &&
      r.byColour == Apply(q.byColour, TakeColourToggles(q, h))
  {
  }

  /** A position and history entry as `MakeMove` leaves them, as far as `Takeback` reads
      them: the entry holds the move and the old en-passant square, the side to move has
      changed, and the mailbox and king squares are the ones the move writes. */
  predicate Leaves(p: Position, m: Move, back: nat, q: Position, h: BoardHistory)
    requires Playable(p, m) && 1 <= back <= 2
  {
    h.LastMove == m && h.EnpassantSquare == p.enpassant && 0 <= h.Castlings < 16 &&
    Shaped(q) && q.whiteToMove == !p.whiteToMove && q.colourToMove == Piece.OpponentOf(p.colourToMove) &&
    q.squares == MoveSquares(p, m, back) && q.kings == MoveKings(p, m)
  }

  lemma LeavesUndoable(p: Position, m: Move, back: nat, q: Position, h: BoardHistory)
    requires Playable(p, m) && 1 <= back <= 2 && Leaves(p, m, back, q, h)
    ensures Undoable(q, h)
  {
  }

  // The mailbox `MakeMove` writes, one lemma per branch.

  lemma MovePlainSquares(p: Position, m: Move, back: nat)
    requires Playable(p, m) && 1 <= back <= 2 && SpecialOf(m) == Plain
    ensures MoveSquares(p, m, back) == p.squares[Start(m) := Piece.None][End(m) := Mover(m)]
  {
  }

  lemma MovePromotionSquares(p: Position, m: Move, back: nat)
    requires Playable(p, m) && 1 <= back <= 2 && SpecialOf(m) == Promotion
    ensures MoveSquares(p, m, back) == p.squares[Start(m) := Piece.None][End(m) := Mover(m)]
      [End(m) := Piece.WithColour(m.PromotionType(), p.colourToMove)]
  {
  }

  lemma MoveEnpassantSquares(p: Position, m: Move, back: nat)
    requires Playable(p, m) && 1 <= back <= 2 && SpecialOf(m) == Enpassant
    ensures MoveSquares(p, m, back) == p.squares[Start(m) := Piece.None][End(m) := Mover(m)]
      [PawnSquare(p.enpassant, p.whiteToMove) := Piece.None]
  {
  }

  lemma MoveKingsideSquares(p: Position, m: Move, back: nat)
    requires Playable(p, m) && 1 <= back <= 2 && SpecialOf(m) == Kingside
    ensures MoveSquares(p, m, back) == p.squares[Start(m) := Piece.None][End(m) := Mover(m)]
      [End(m) + 1 := Piece.None][End(m) - 1 := RookOf(p.colourToMove)]
  {
  }

  lemma MoveQueensideSquares(p: Position, m: Move, back: nat)
    requires Playable(p, m) && 1 <= back <= 2 && SpecialOf(m) == Queenside
    ensures MoveSquares(p, m, back) == p.squares[Start(m) := Piece.None][End(m) := Mover(m)]
      [End(m) - back := Piece.None][End(m) + 1 := RookOf(p.colourToMove)]
  {
  }

  // The mailbox `Takeback` writes, one lemma per branch.

  lemma TakePlainSquares(q: Position, h: BoardHistory)
    requires Undoable(q, h) && SpecialOf(h.LastMove) in {Plain, Promotion}
    ensures var m := h.LastMove;
      TakeSquares(q, h) == q.squares[Start(m) := Mover(m)][End(m) := Taken(m)]
  {
  }

  lemma TakeEnpassantSquares(q: Position, h: BoardHistory)
    requires Undoable(q, h) && SpecialOf(h.LastMove) == Enpassant
    ensures var m := h.LastMove;
      TakeSquares(q, h) == q.squares[Start(m) := Mover(m)][End(m) := Taken(m)]
        [PawnSquare(h.EnpassantSquare, !q.whiteToMove) := OpponentPawn(Piece.OpponentOf(q.colourToMove))]
  {
  }

  lemma TakeKingsideSquares(q: Position, h: BoardHistory)
    requires Undoable(q, h) && SpecialOf(h.LastMove) == Kingside
    ensures var m := h.LastMove;
      TakeSquares(q, h) == q.squares[Start(m) := Mover(m)][End(m) := Taken(m)]
        [End(m) + 1 := RookOf(Piece.OpponentOf(q.colourToMove))][End(m) - 1 := Piece.None]
  {
  }

  lemma TakeQueensideSquares(q: Position, h: BoardHistory)
    requires Undoable(q, h) && SpecialOf(h.LastMove) == Queenside
    ensures var m := h.LastMove;
      TakeSquares(q, h) == q.squares[Start(m) := Mover(m)][End(m) := Taken(m)]
        [End(m) - 2 := RookOf(Piece.OpponentOf(q.colourToMove))][End(m) + 1 := Piece.None]
  {
  }

  // The mailbox comes back, branch by branch.

  lemma PlainSquaresBack(p: Position, m: Move, q: Position, h: BoardHistory)
    requires Restorable(p, m) && SpecialOf(m) in {Plain, Promotion} && Leaves(p, m, 2, q, h)
    ensures Undoable(q, h) && TakeSquares(q, h) == p.squares
  {
    LeavesUndoable(p, m, 2, q, h);
    if SpecialOf(m) == Plain {
      MovePlainSquares(p, m, 2);
    } else {
      MovePromotionSquares(p, m, 2);
    }
    TakePlainSquares(q, h);
  }

  lemma EnpassantSquaresBack(p: Position, m: Move, q: Position, h: BoardHistory)
    requires Restorable(p, m) && SpecialOf(m) == Enpassant && Leaves(p, m, 2, q, h)
    ensures Undoable(q, h) && TakeSquares(q, h) == p.squares
  {
    LeavesUndoable(p, m, 2, q, h);
    SideBack(p.colourToMove);
    MoveEnpassantSquares(p, m, 2);
    TakeEnpassantSquares(q, h);
    PawnWritesBack(p.squares, Start(m), End(m), PawnSquare(p.enpassant, p.whiteToMove), Mover(m), Taken(m),
      OpponentPawn(p.colourToMove));
  }

  /** The mailbox writes of an en-passant capture and of its takeback. */
  lemma PawnWritesBack(a: seq<int>, s: nat, e: nat, ps: nat, f: int, o: int, pawn: int)
    requires s < |a| && e < |a| && ps < |a| && ps != s && ps != e
    requires a[s] == f && a[e] == o && a[ps] == pawn
    ensures a[s := Piece.None][e := f][ps := Piece.None][s := f][e := o][ps := pawn] == a
  {
  }

  lemma KingsideSquaresBack(p: Position, m: Move, q: Position, h: BoardHistory)
    requires Restorable(p, m) && SpecialOf(m) == Kingside && Leaves(p, m, 2, q, h)
    ensures Undoable(q, h) && TakeSquares(q, h) == p.squares
  {
    LeavesUndoable(p, m, 2, q, h);
    SideBack(p.colourToMove);
    MoveKingsideSquares(p, m, 2);
    TakeKingsideSquares(q, h);
    var e := End(m);
    RookWritesBack(p.squares, Start(m), e, e + 1, e - 1, Mover(m), Taken(m), RookOf(p.colourToMove));
  }

  lemma QueensideSquaresBack(p: Position, m: Move, q: Position, h: BoardHistory)
    requires Restorable(p, m) && SpecialOf(m) == Queenside && Leaves(p, m, 2, q, h)
    ensures Undoable(q, h) && TakeSquares(q, h) == p.squares
  {
    LeavesUndoable(p, m, 2, q, h);
    SideBack(p.colourToMove);
    MoveQueensideSquares(p, m, 2);
    TakeQueensideSquares(q, h);
    var e := End(m);
    RookWritesBack(p.squares, Start(m), e, e - 2, e + 1, Mover(m), Taken(m), RookOf(p.colourToMove));
  }

  /** The mailbox writes of a castling and of its takeback: king from `s` to `e`, rook from
      `from` to `to`, then back. */
  lemma RookWritesBack(a: seq<int>, s: nat, e: nat, from: nat, to: nat, f: int, o: int, rook: int)
    requires s < |a| && e < |a| && from < |a| && to < |a|
    requires s != e && s != from && s != to && e != from && e != to && from != to
    requires a[s] == f && a[e] == o && a[from] == rook && a[to] == Piece.None
    ensures a[s := Piece.None][e := f][from := Piece.None][to := rook][s := f][e := o][from := rook][to := Piece.None] == a
  {
  }

  lemma SquaresBack(p: Position, m: Move, q: Position, h: BoardHistory)
    requires Restorable(p, m) && Leaves(p, m, 2, q, h)
    ensures Undoable(q, h) && TakeSquares(q, h) == p.squares
  {
    match SpecialOf(m)
    case Plain => PlainSquaresBack(p, m, q, h);
    case Promotion => PlainSquaresBack(p, m, q, h);
    case Enpassant => EnpassantSquaresBack(p, m, q, h);
    case Kingside => KingsideSquaresBack(p, m, q, h);
    case Queenside => QueensideSquaresBack(p, m, q, h);
  }

  /** The king squares come back: a castling king and a king that moved return to the
      starting square, and no other move touches them. */
  lemma KingsBack(p: Position, m: Move, q: Position, h: BoardHistory)
    requires Restorable(p, m) && Leaves(p, m, 2, q, h)
    ensures Undoable(q, h) && TakeKings(q, h) == p.kings
  {
    LeavesUndoable(p, m, 2, q, h);
    SideBack(p.colourToMove);
  }

  // The bitboard statements of `Takeback` are those of `MakeMove`.

  lemma PieceTogglesBack(p: Position, m: Move, q: Position, h: BoardHistory)
    requires Playable(p, m) && Leaves(p, m, 2, q, h)
    ensures Undoable(q, h) && TakePieceToggles(q, h) == MovePieceToggles(p, m, 2)
  {
    SpecialPiecesBack(p, m, q, h);
  }

  lemma SpecialPiecesBack(p: Position, m: Move, q: Position, h: BoardHistory)
    requires Playable(p, m) && Leaves(p, m, 2, q, h)
    ensures Undoable(q, h) && TakeSpecialPieces(q, h) == MoveSpecialPieces(p, m, 2)
  {
    LeavesUndoable(p, m, 2, q, h);
    SideBack(p.colourToMove);
    var e := End(m);
    if SpecialOf(m) == Kingside {
      RookBitsSwap(e + 1, e - 1);
    } else if SpecialOf(m) == Queenside {
      RookBitsSwap(e - 2, e + 1);
    }
  }

  lemma ColourTogglesBack(p: Position, m: Move, q: Position, h: BoardHistory)
    requires Playable(p, m) && Leaves(p, m, 2, q, h)
    ensures Undoable(q, h) && TakeColourToggles(q, h) == MoveColourToggles(p, m, 2)
  {
    SpecialColoursBack(p, m, q, h);
  }

  lemma SpecialColoursBack(p: Position, m: Move, q: Position, h: BoardHistory)
    requires Playable(p, m) && Leaves(p, m, 2, q, h)
    ensures Undoable(q, h) && TakeSpecialColours(q, h) == MoveSpecialColours(p, m, 2)
  {
    LeavesUndoable(p, m, 2, q, h);
    SideBack(p.colourToMove);
    var e := End(m);
    if SpecialOf(m) == Kingside {
      RookBitsSwap(e + 1, e - 1);
    } else if SpecialOf(m) == Queenside {
      RookBitsSwap(e - 2, e + 1);
    }
  }

  /** Running the same statements twice leaves every bitboard as it was. */
  lemma ApplyTwice(bitboards: seq<ulong>, toggles: seq<Toggle>)
    ensures Apply(Apply(bitboards, toggles), toggles) == bitboards
  {
    var once := Apply(bitboards, toggles);
    forall k | 0 <= k < |bitboards|
      ensures Apply(once, toggles)[k] == bitboards[k]
    {
      var x := XorAt(toggles, k);
      UXorAlgebra(bitboards[k], x, x);
      UXorAlgebra(x, x, 0);
      UXorAlgebra(bitboards[k], 0, 0);
    }
  }

  /** Taking back a move made on a position it fits gives the position back, every array
      and field of it. */
  lemma {:induction false} MakeRoundTrip(p: Position, m: Move, key: ulong)
    requires Restorable(p, m)
    ensures Undoable(AfterMove(p, m), Entry(p, m, key))
    ensures AfterTakeback(AfterMove(p, m), Entry(p, m, key)) == p
  {
    var q, h := AfterMove(p, m), Entry(p, m, key);
    SideBack(p.colourToMove);
    MoveFields(p, m, 2);
    assert Leaves(p, m, 2, q, h);
    SquaresBack(p, m, q, h);
    KingsBack(p, m, q, h);
    PieceTogglesBack(p, m, q, h);
    ColourTogglesBack(p, m, q, h);
    TakeFields(q, h);
    ApplyTwice(p.pieces, MovePieceToggles(p, m, 2));
    ApplyTwice(p.byColour, MoveColourToggles(p, m, 2));
  }

  // ------------------------------------------------------ the views agree

  /** Entry `k` of the piece bitboards holds exactly the squares where the mailbox has the
      piece `k`, for every code that is a piece. */
  predicate PiecesAgree(squares: seq<int>, pieces: seq<ulong>)
    requires |squares| == 64 && |pieces| == 16
  {
    forall k, t | 0 <= k < 16 && 0 <= t < 64 && !Piece.IsEmpty(k) :: BitOf(pieces[k], t) == (squares[t] == k)
  }

  /** Entry `c` of the colour bitboards holds exactly the squares where the mailbox has a
      piece of colour index `c`. */
  predicate ColoursAgree(squares: seq<int>, byColour: seq<ulong>)
    requires Zobrist.IsMailbox(squares) && |byColour| == 2
  {
    forall c, t | 0 <= c < 2 && 0 <= t < 64 :: BitOf(byColour[c], t) == OfColour(squares[t], c)
  }

  /** A code that is a piece of colour index `c`. */
  predicate OfColour(code: int, c: int) {
    0 <= code && !Piece.IsEmpty(code) && Piece.ColourIndex(code) == c
  }

  /** The mailbox, the piece bitboards and the colour bitboards describe the same pieces. */
  predicate Agrees(p: Position) {
    Shaped(p) && PiecesAgree(p.squares, p.pieces) && ColoursAgree(p.squares, p.byColour)
  }

  /** A move that fits the position and moves real pieces: a piece of the side to move
      leaves its square, a capture takes a piece of the other side, and a promotion names
      one of the four promotion pieces. */
  predicate Fits(p: Position, m: Move) {
    Restorable(p, m) && !Piece.IsEmpty(Mover(m)) && Piece.ColourIndex(Mover(m)) == p.friendlyIndex &&
    (m.IsCapture() ==> Piece.ColourIndex(Taken(m)) != p.friendlyIndex) &&
    (SpecialOf(m) == Promotion ==> m.PromotionType() != Piece.None)
  }

  /** Whether a run of statements flips bit `t` of entry `k`: an odd number of them xor a
      value with that bit into that entry. */
  function Flips(toggles: seq<Toggle>, k: nat, t: nat): bool
    decreases |toggles|
  {
    if toggles == [] then false
    else
      var last := toggles[|toggles| - 1];
      Flips(toggles[..|toggles| - 1], k, t) != (last.index == k && BitOf(last.bits, t))
  }

  lemma {:induction false} XorAtBit(toggles: seq<Toggle>, k: nat, t: nat)
    ensures BitOf(XorAt(toggles, k), t) == Flips(toggles, k, t)
    decreases |toggles|
  {
    if toggles == [] {
      ZeroBits(t);
    } else {
      var last := toggles[|toggles| - 1];
      XorAtBit(toggles[..|toggles| - 1], k, t);
      UXorAt(XorAt(toggles[..|toggles| - 1], k), if last.index == k then last.bits else 0, t);
      ZeroBits(t);
    }
  }

  /** Bit `t` of an entry after a run is the bit before, flipped when the run flips it. */
  lemma ApplyBit(bitboards: seq<ulong>, toggles: seq<Toggle>, k: nat, t: nat)
    requires k < |bitboards|
    ensures BitOf(Apply(bitboards, toggles)[k], t) == (BitOf(bitboards[k], t) != Flips(toggles, k, t))
  {
    XorAtBit(toggles, k, t);
    UXorAt(bitboards[k], XorAt(toggles, k), t);
  }

  /** Two runs one after the other flip a bit when exactly one of them does. */
  lemma {:induction false} FlipsAppend(a: seq<Toggle>, b: seq<Toggle>, k: nat, t: nat)
    ensures Flips(a + b, k, t) == (Flips(a, k, t) != Flips(b, k, t))
    decreases |b|
  {
    if b == [] {
      assert a + b == a;
    } else {
      var front := b[..|b| - 1];
      assert (a + b)[..|a + b| - 1] == a + front;
      FlipsAppend(a, front, k, t);
    }
  }

  lemma FlipsOne(x: Toggle, k: nat, t: nat)
    ensures Flips([x], k, t) == (x.index == k && BitOf(x.bits, t))
  {
    assert [x][..0] == [];
  }

  lemma FlipsTwo(x: Toggle, y: Toggle, k: nat, t: nat)
    ensures Flips([x, y], k, t) == ((x.index == k && BitOf(x.bits, t)) != (y.index == k && BitOf(y.bits, t)))
  {
    assert [x, y][..1] == [x];
    FlipsOne(x, k, t);
  }

  lemma RookBitsAt(a: nat, b: nat, t: nat)
    requires a < 64 && b < 64
    ensures BitOf(RookBits(a, b), t) <==> t == a || t == b
  {
    UOrAt(SquareBit(a), SquareBit(b), t);
    SquareBitAt(a, t);
    SquareBitAt(b, t);
  }

  /** The squares the statements common to every move flip on piece entry `k`: the mover's
      two squares, and the ending square on the captured piece's entry. */
  lemma PieceMovesFlips(m: Move, k: nat, t: nat)
    ensures Flips(PieceMoves(m), k, t) ==
      ((k == Mover(m) && (t == Start(m) || t == End(m))) != (m.IsCapture() && k == Taken(m) && t == End(m)))
  {
    var s, e := Start(m), End(m);
    var moved := Toggle(Mover(m), UOr(SquareBit(s), SquareBit(e)));
    RookBitsAt(s, e, t);
    SquareBitAt(e, t);
    if m.IsCapture() {
      assert PieceMoves(m) == [moved, Toggle(Taken(m), SquareBit(e))];
      FlipsTwo(moved, Toggle(Taken(m), SquareBit(e)), k, t);
    } else {
      assert PieceMoves(m) == [moved];
      FlipsOne(moved, k, t);
    }
  }

  /** The same on the colour entries, for the side with index `fi`. */
  lemma ColourMovesFlips(m: Move, fi: nat, c: nat, t: nat)
    ensures Flips(ColourMoves(m, fi), c, t) ==
      ((c == fi && (t == Start(m) || t == End(m))) != (m.IsCapture() && c == Piece.OtherIndex(fi) && t == End(m)))
  {
    var s, e := Start(m), End(m);
    var moved := Toggle(fi, UOr(SquareBit(s), SquareBit(e)));
    RookBitsAt(s, e, t);
    SquareBitAt(e, t);
    if m.IsCapture() {
      assert ColourMoves(m, fi) == [moved, Toggle(Piece.OtherIndex(fi), SquareBit(e))];
      FlipsTwo(moved, Toggle(Piece.OtherIndex(fi), SquareBit(e)), c, t);
    } else {
      assert ColourMoves(m, fi) == [moved];
      FlipsOne(moved, c, t);
    }
  }

  /** A capture is a move whose target square holds a piece. */
  lemma CaptureTaken(m: Move)
    ensures m.IsCapture() <==> !Piece.IsEmpty(Taken(m))
  {
  }

  /** The piece codes the board writes, by type and colour. */
  lemma CodesOf(colour: int)
    requires colour == Piece.White || colour == Piece.Black
    ensures Piece.IsEmpty(Piece.None)
    ensures !Piece.IsEmpty(RookOf(colour)) && Piece.ColourIndex(RookOf(colour)) == colour / 8
    ensures !Piece.IsEmpty(OpponentPawn(colour)) && Piece.ColourIndex(OpponentPawn(colour)) == Piece.OpponentOf(colour) / 8
  {
    Piece.PieceClasses(Piece.None);
    Piece.PieceClasses(RookOf(colour));
    Piece.PieceClasses(OpponentPawn(colour));
  }

  lemma PromotedCode(m: Move, colour: int)
    requires colour == Piece.White || colour == Piece.Black
    requires m.PromotionType() != Piece.None
    ensures var promoted := Piece.WithColour(m.PromotionType(), colour);
      !Piece.IsEmpty(promoted) && Piece.ColourIndex(promoted) == colour / 8
  {
    Piece.PieceClasses(Piece.WithColour(m.PromotionType(), colour));
  }

  /** A fitting move keeps piece entry `k` in step with the mailbox on square `t`. */
  lemma MovePieceBit(p: Position, m: Move, k: nat, t: nat)
    requires Fits(p, m) && PiecesAgree(p.squares, p.pieces)
    requires k < 16 && !Piece.IsEmpty(k) && t < 64
    ensures BitOf(Apply(p.pieces, MovePieceToggles(p, m, 2))[k], t) == (MoveSquares(p, m, 2)[t] == k)
  {
    ApplyBit(p.pieces, MovePieceToggles(p, m, 2), k, t);
    FlipsAppend(PieceMoves(m), MoveSpecialPieces(p, m, 2), k, t);
    assert BitOf(p.pieces[k], t) == (p.squares[t] == k);
    CaptureTaken(m);
    CodesOf(p.colourToMove);
    match SpecialOf(m)
    case Plain => PlainPieceBit(p, m, k, t);
    case Promotion => PromotionPieceBit(p, m, k, t);
    case Enpassant => EnpassantPieceBit(p, m, k, t);
    case Kingside =>
      KingsideLayout(p, m);
      KingsidePieceBit(p, m, k, t);
    case Queenside =>
      QueensideLayout(p, m);
      QueensidePieceBit(p, m, k, t);
  }

  // The same, one lemma per branch: what the statements of the branch flip, and the
  // mailbox writes of the branch compared square by square.

  lemma PlainPieceBit(p: Position, m: Move, k: nat, t: nat)
    requires Fits(p, m) && SpecialOf(m) == Plain
    requires k < 16 && !Piece.IsEmpty(k) && t < 64 && Piece.IsEmpty(Piece.None)
    requires m.IsCapture() <==> !Piece.IsEmpty(Taken(m))
    ensures var flips := Flips(PieceMoves(m), k, t) != Flips(MoveSpecialPieces(p, m, 2), k, t);
      ((p.squares[t] == k) != flips) == (MoveSquares(p, m, 2)[t] == k)
  {
    assert MoveSpecialPieces(p, m, 2) == [];
    MovePlainSquares(p, m, 2);
    PieceMovesFlips(m, k, t);
    PlainWrites(p.squares, Start(m), End(m), Mover(m), Taken(m), m.IsCapture(), k, t);
  }

  lemma PromotionPieceBit(p: Position, m: Move, k: nat, t: nat)
    requires Fits(p, m) && SpecialOf(m) == Promotion
    requires k < 16 && !Piece.IsEmpty(k) && t < 64 && Piece.IsEmpty(Piece.None)
    requires m.IsCapture() <==> !Piece.IsEmpty(Taken(m))
    ensures var flips := Flips(PieceMoves(m), k, t) != Flips(MoveSpecialPieces(p, m, 2), k, t);
      ((p.squares[t] == k) != flips) == (MoveSquares(p, m, 2)[t] == k)
  {
    var e := End(m);
    var promoted := Piece.WithColour(m.PromotionType(), p.colourToMove);
    assert MoveSpecialPieces(p, m, 2) == [Toggle(Mover(m), SquareBit(e)), Toggle(promoted, SquareBit(e))];
    FlipsTwo(Toggle(Mover(m), SquareBit(e)), Toggle(promoted, SquareBit(e)), k, t);
    SquareBitAt(e, t);
    MovePromotionSquares(p, m, 2);
    PieceMovesFlips(m, k, t);
    PromotionWrites(p.squares, Start(m), e, Mover(m), Taken(m), promoted, m.IsCapture(), k, t);
  }

  lemma EnpassantPieceBit(p: Position, m: Move, k: nat, t: nat)
    requires Fits(p, m) && SpecialOf(m) == Enpassant
    requires k < 16 && !Piece.IsEmpty(k) && t < 64 && Piece.IsEmpty(Piece.None)
    requires m.IsCapture() <==> !Piece.IsEmpty(Taken(m))
    ensures var flips := Flips(PieceMoves(m), k, t) != Flips(MoveSpecialPieces(p, m, 2), k, t);
      ((p.squares[t] == k) != flips) == (MoveSquares(p, m, 2)[t] == k)
  {
    var ps := PawnSquare(p.enpassant, p.whiteToMove);
    var pawn := Toggle(OpponentPawn(p.colourToMove), SquareBit(ps));
    assert MoveSpecialPieces(p, m, 2) == [pawn];
    FlipsOne(pawn, k, t);
    SquareBitAt(ps, t);
    MoveEnpassantSquares(p, m, 2);
    PieceMovesFlips(m, k, t);
    PawnWrites(p.squares, Start(m), End(m), ps, Mover(m), Taken(m), pawn.index, m.IsCapture(), k, t);
  }

  /** The statements and writes of a kingside castling's branch: the rook statement flips the
      rook's two squares on the rook's piece entry and on the colour entry of the side to
      move, and the mailbox gets the rook moved. */
  lemma KingsideEffects(p: Position, m: Move, k: nat, t: nat)
    requires Playable(p, m) && SpecialOf(m) == Kingside
    ensures Flips(MoveSpecialPieces(p, m, 2), k, t) == (k == RookOf(p.colourToMove) && (t == End(m) + 1 || t == End(m) - 1))
    ensures Flips(MoveSpecialColours(p, m, 2), k, t) == (k == p.friendlyIndex && (t == End(m) + 1 || t == End(m) - 1))
    ensures MoveSquares(p, m, 2) ==
      p.squares[Start(m) := Piece.None][End(m) := Mover(m)][End(m) + 1 := Piece.None][End(m) - 1 := RookOf(p.colourToMove)]
  {
    var e := End(m);
    var pieces, colours := Toggle(RookOf(p.colourToMove), RookBits(e - 1, e + 1)), Toggle(p.friendlyIndex, RookBits(e - 1, e + 1));
    assert MoveSpecialPieces(p, m, 2) == [pieces];
    assert MoveSpecialColours(p, m, 2) == [colours];
    FlipsOne(pieces, k, t);
    FlipsOne(colours, k, t);
    RookBitsAt(e - 1, e + 1, t);
    MoveKingsideSquares(p, m, 2);
  }

  lemma KingsidePieceBit(p: Position, m: Move, k: nat, t: nat)
    requires Playable(p, m) && SpecialOf(m) == Kingside
    requires 1 <= End(m) <= 62
    requires RookLayout(p.squares, Start(m), End(m), End(m) + 1, End(m) - 1, Mover(m), Taken(m), RookOf(p.colourToMove))
    requires k < 16 && !Piece.IsEmpty(k) && t < 64 && Piece.IsEmpty(Piece.None)
    requires m.IsCapture() <==> !Piece.IsEmpty(Taken(m))
    ensures var flips := Flips(PieceMoves(m), k, t) != Flips(MoveSpecialPieces(p, m, 2), k, t);
      ((p.squares[t] == k) != flips) == (MoveSquares(p, m, 2)[t] == k)
  {
    KingsideEffects(p, m, k, t);
    PieceMovesFlips(m, k, t);
    RookWrites(p.squares, Start(m), End(m), End(m) + 1, End(m) - 1, Mover(m), Taken(m), RookOf(p.colourToMove), m.IsCapture(), k, t);
  }

  /** A castling's board before the move: the king on `s`, the piece taken (or none) on `e`,
      the rook on `from` and nothing on `to`, all four squares distinct. */
  predicate RookLayout(sq: seq<int>, s: nat, e: nat, from: nat, to: nat, mover: int, taken: int, rook: int) {
    |sq| == 64 && s < 64 && e < 64 && from < 64 && to < 64 &&
    s != e && s != from && s != to && e != from && e != to && from != to &&
    sq[s] == mover && sq[e] == taken && sq[from] == rook && sq[to] == Piece.None
  }

  /** What a fitting kingside castling finds on the board: the king, its target square
      empty or not, the rook in the corner next to it and the square the rook goes to empty. */
  lemma KingsideLayout(p: Position, m: Move)
    requires Fits(p, m) && SpecialOf(m) == Kingside
    ensures 1 <= End(m) <= 62
    ensures RookLayout(p.squares, Start(m), End(m), End(m) + 1, End(m) - 1, Mover(m), Taken(m), RookOf(p.colourToMove))
  {
  }

  /** What a fitting queenside castling finds on the board: the king, its target square
      empty or not, the rook in the corner two files beyond it and the square the rook goes
      to empty. */
  lemma QueensideLayout(p: Position, m: Move)
    requires Fits(p, m) && SpecialOf(m) == Queenside
    ensures 2 <= End(m) <= 62
    ensures RookLayout(p.squares, Start(m), End(m), End(m) - 2, End(m) + 1, Mover(m), Taken(m), RookOf(p.colourToMove))
  {
  }

  /** The statements and writes of a queenside castling's branch: the rook statement flips the
      rook's two squares on the rook's piece entry and on the colour entry of the side to
      move, and the mailbox gets the rook moved. */
  lemma QueensideEffects(p: Position, m: Move, k: nat, t: nat)
    requires Playable(p, m) && SpecialOf(m) == Queenside
    ensures Flips(MoveSpecialPieces(p, m, 2), k, t) == (k == RookOf(p.colourToMove) && (t == End(m) - 2 || t == End(m) + 1))
    ensures Flips(MoveSpecialColours(p, m, 2), k, t) == (k == p.friendlyIndex && (t == End(m) - 2 || t == End(m) + 1))
    ensures MoveSquares(p, m, 2) ==
      p.squares[Start(m) := Piece.None][End(m) := Mover(m)][End(m) - 2 := Piece.None][End(m) + 1 := RookOf(p.colourToMove)]
  {
    var e := End(m);
    assert 2 <= e <= 62;
    var pieces, colours := Toggle(RookOf(p.colourToMove), RookBits(e + 1, e - 2)), Toggle(p.friendlyIndex, RookBits(e + 1, e - 2));
    assert MoveSpecialPieces(p, m, 2) == [pieces];
    assert MoveSpecialColours(p, m, 2) == [colours];
    FlipsOne(pieces, k, t);
    FlipsOne(colours, k, t);
    RookBitsAt(e + 1, e - 2, t);
    MoveQueensideSquares(p, m, 2);
  }

  lemma QueensidePieceBit(p: Position, m: Move, k: nat, t: nat)
    requires Playable(p, m) && SpecialOf(m) == Queenside
    requires 2 <= End(m) <= 62
    requires RookLayout(p.squares, Start(m), End(m), End(m) - 2, End(m) + 1, Mover(m), Taken(m), RookOf(p.colourToMove))
    requires k < 16 && !Piece.IsEmpty(k) && t < 64 && Piece.IsEmpty(Piece.None)
    requires m.IsCapture() <==> !Piece.IsEmpty(Taken(m))
    ensures var flips := Flips(PieceMoves(m), k, t) != Flips(MoveSpecialPieces(p, m, 2), k, t);
      ((p.squares[t] == k) != flips) == (MoveSquares(p, m, 2)[t] == k)
  {
    QueensideEffects(p, m, k, t);
    PieceMovesFlips(m, k, t);
    RookWrites(p.squares, Start(m), End(m), End(m) - 2, End(m) + 1, Mover(m), Taken(m), RookOf(p.colourToMove), m.IsCapture(), k, t);
  }

  // The mailbox writes of each branch against the flips of piece entry `k`: a square
  // written holds `k` afterwards exactly when the bit was flipped if and only if it did not
  // hold `k` before.

  lemma PlainWrites(sq: seq<int>, s: nat, e: nat, mover: int, taken: int, capture: bool, k: int, t: nat)
    requires |sq| == 64 && s < 64 && e < 64 && t < 64 && s != e && sq[s] == mover && sq[e] == taken
    requires k != Piece.None && (k == taken ==> capture)
    ensures var flips := (k == mover && (t == s || t == e)) != (capture && k == taken && t == e);
      ((sq[t] == k) != flips) == (sq[s := Piece.None][e := mover][t] == k)
  {
  }

  lemma PromotionWrites(sq: seq<int>, s: nat, e: nat, mover: int, taken: int, promoted: int, capture: bool, k: int, t: nat)
    requires |sq| == 64 && s < 64 && e < 64 && t < 64 && s != e && sq[s] == mover && sq[e] == taken
    requires k != Piece.None && (k == taken ==> capture)
    ensures var flips := ((k == mover && (t == s || t == e)) != (capture && k == taken && t == e)) !=
        ((k == mover && t == e) != (k == promoted && t == e));
      ((sq[t] == k) != flips) == (sq[s := Piece.None][e := mover][e := promoted][t] == k)
  {
  }

  lemma PawnWrites(sq: seq<int>, s: nat, e: nat, ps: nat, mover: int, taken: int, pawn: int, capture: bool, k: int, t: nat)
    requires |sq| == 64 && s < 64 && e < 64 && ps < 64 && t < 64 && s != e && ps != s && ps != e
    requires sq[s] == mover && sq[e] == taken && sq[ps] == pawn
    requires k != Piece.None && (k == taken ==> capture)
    ensures var flips := ((k == mover && (t == s || t == e)) != (capture && k == taken && t == e)) != (k == pawn && t == ps);
      ((sq[t] == k) != flips) == (sq[s := Piece.None][e := mover][ps := Piece.None][t] == k)
  {
  }

  lemma RookWrites(sq: seq<int>, s: nat, e: nat, from: nat, to: nat, mover: int, taken: int, rook: int, capture: bool, k: int, t: nat)
    requires RookLayout(sq, s, e, from, to, mover, taken, rook) && t < 64
    requires k != Piece.None && (k == taken ==> capture)
    ensures var flips := ((k == mover && (t == s || t == e)) != (capture && k == taken && t == e)) != (k == rook && (t == to || t == from));
      ((sq[t] == k) != flips) == (sq[s := Piece.None][e := mover][from := Piece.None][to := rook][t] == k)
  {
  }

  /** A fitting move keeps colour entry `c` in step with the mailbox on square `t`. */
  lemma MoveColourBit(p: Position, m: Move, c: nat, t: nat)
    requires Fits(p, m) && ColoursAgree(p.squares, p.byColour)
    requires c < 2 && t < 64
    ensures BitOf(Apply(p.byColour, MoveColourToggles(p, m, 2))[c], t) == OfColour(MoveSquares(p, m, 2)[t], c)
  {
    ApplyBit(p.byColour, MoveColourToggles(p, m, 2), c, t);
    FlipsAppend(ColourMoves(m, p.friendlyIndex), MoveSpecialColours(p, m, 2), c, t);
    assert BitOf(p.byColour[c], t) == OfColour(p.squares[t], c);
    CodesOf(p.colourToMove);
    MoverColours(p, m, c);
    match SpecialOf(m)
    case Plain => PlainColourBit(p, m, c, t);
    case Promotion => PromotionColourBit(p, m, c, t);
    case Enpassant => EnpassantColourBit(p, m, c, t);
    case Kingside =>
      KingsideLayout(p, m);
      KingsideColourBit(p, m, c, t);
    case Queenside =>
      QueensideLayout(p, m);
      QueensideColourBit(p, m, c, t);
  }

  lemma PlainColourBit(p: Position, m: Move, c: nat, t: nat)
    requires Fits(p, m) && SpecialOf(m) == Plain && c < 2 && t < 64
    requires !OfColour(Piece.None, c) && OfColour(Mover(m), c) == (c == p.friendlyIndex)
    requires OfColour(Taken(m), c) == (m.IsCapture() && c == Piece.OtherIndex(p.friendlyIndex))
    ensures var flips := Flips(ColourMoves(m, p.friendlyIndex), c, t) != Flips(MoveSpecialColours(p, m, 2), c, t);
      (OfColour(p.squares[t], c) != flips) == OfColour(MoveSquares(p, m, 2)[t], c)
  {
    assert MoveSpecialColours(p, m, 2) == [];
    MovePlainSquares(p, m, 2);
    ColourMovesFlips(m, p.friendlyIndex, c, t);
    PlainColours(p.squares, Start(m), End(m), Mover(m), Taken(m), m.IsCapture(), c, p.friendlyIndex,
      Piece.OtherIndex(p.friendlyIndex), t);
  }

  lemma PromotionColourBit(p: Position, m: Move, c: nat, t: nat)
    requires Fits(p, m) && SpecialOf(m) == Promotion && c < 2 && t < 64
    requires !OfColour(Piece.None, c) && OfColour(Mover(m), c) == (c == p.friendlyIndex)
    requires OfColour(Taken(m), c) == (m.IsCapture() && c == Piece.OtherIndex(p.friendlyIndex))
    ensures var flips := Flips(ColourMoves(m, p.friendlyIndex), c, t) != Flips(MoveSpecialColours(p, m, 2), c, t);
      (OfColour(p.squares[t], c) != flips) == OfColour(MoveSquares(p, m, 2)[t], c)
  {
    var promoted := Piece.WithColour(m.PromotionType(), p.colourToMove);
    assert MoveSpecialColours(p, m, 2) == [];
    PromotedCode(m, p.colourToMove);
    MovePromotionSquares(p, m, 2);
    ColourMovesFlips(m, p.friendlyIndex, c, t);
    PromotionColours(p.squares, Start(m), End(m), Mover(m), Taken(m), promoted, m.IsCapture(), c, p.friendlyIndex,
      Piece.OtherIndex(p.friendlyIndex), t);
  }

  lemma EnpassantColourBit(p: Position, m: Move, c: nat, t: nat)
    requires Fits(p, m) && SpecialOf(m) == Enpassant && c < 2 && t < 64
    requires !OfColour(Piece.None, c) && OfColour(Mover(m), c) == (c == p.friendlyIndex)
    requires OfColour(Taken(m), c) == (m.IsCapture() && c == Piece.OtherIndex(p.friendlyIndex))
    ensures var flips := Flips(ColourMoves(m, p.friendlyIndex), c, t) != Flips(MoveSpecialColours(p, m, 2), c, t);
      (OfColour(p.squares[t], c) != flips) == OfColour(MoveSquares(p, m, 2)[t], c)
  {
    var ps := PawnSquare(p.enpassant, p.whiteToMove);
    var pawn := Toggle(Piece.OtherIndex(p.friendlyIndex), SquareBit(ps));
    assert MoveSpecialColours(p, m, 2) == [pawn];
    FlipsOne(pawn, c, t);
    SquareBitAt(ps, t);
    CodesOf(p.colourToMove);
    MoveEnpassantSquares(p, m, 2);
    ColourMovesFlips(m, p.friendlyIndex, c, t);
    PawnColours(p.squares, Start(m), End(m), ps, Mover(m), Taken(m), OpponentPawn(p.colourToMove), m.IsCapture(), c,
      p.friendlyIndex, pawn.index, t);
  }

  lemma KingsideColourBit(p: Position, m: Move, c: nat, t: nat)
    requires Playable(p, m) && SpecialOf(m) == Kingside && c < 2 && t < 64
    requires 1 <= End(m) <= 62
    requires RookLayout(p.squares, Start(m), End(m), End(m) + 1, End(m) - 1, Mover(m), Taken(m), RookOf(p.colourToMove))
    requires !OfColour(Piece.None, c) && OfColour(Mover(m), c) == (c == p.friendlyIndex)
    requires OfColour(Taken(m), c) == (m.IsCapture() && c == Piece.OtherIndex(p.friendlyIndex))
    requires OfColour(RookOf(p.colourToMove), c) == (c == p.friendlyIndex)
    ensures var flips := Flips(ColourMoves(m, p.friendlyIndex), c, t) != Flips(MoveSpecialColours(p, m, 2), c, t);
      (OfColour(p.squares[t], c) != flips) == OfColour(MoveSquares(p, m, 2)[t], c)
  {
    KingsideEffects(p, m, c, t);
    ColourMovesFlips(m, p.friendlyIndex, c, t);
    RookColours(p.squares, Start(m), End(m), End(m) + 1, End(m) - 1, Mover(m), Taken(m), RookOf(p.colourToMove), m.IsCapture(), c,
      p.friendlyIndex, Piece.OtherIndex(p.friendlyIndex), t);
  }

  lemma QueensideColourBit(p: Position, m: Move, c: nat, t: nat)
    requires Playable(p, m) && SpecialOf(m) == Queenside && c < 2 && t < 64
    requires 2 <= End(m) <= 62
    requires RookLayout(p.squares, Start(m), End(m), End(m) - 2, End(m) + 1, Mover(m), Taken(m), RookOf(p.colourToMove))
    requires !OfColour(Piece.None, c) && OfColour(Mover(m), c) == (c == p.friendlyIndex)
    requires OfColour(Taken(m), c) == (m.IsCapture() && c == Piece.OtherIndex(p.friendlyIndex))
    requires OfColour(RookOf(p.colourToMove), c) == (c == p.friendlyIndex)
    ensures var flips := Flips(ColourMoves(m, p.friendlyIndex), c, t) != Flips(MoveSpecialColours(p, m, 2), c, t);
      (OfColour(p.squares[t], c) != flips) == OfColour(MoveSquares(p, m, 2)[t], c)
  {
    QueensideEffects(p, m, c, t);
    ColourMovesFlips(m, p.friendlyIndex, c, t);
    RookColours(p.squares, Start(m), End(m), End(m) - 2, End(m) + 1, Mover(m), Taken(m), RookOf(p.colourToMove), m.IsCapture(), c,
      p.friendlyIndex, Piece.OtherIndex(p.friendlyIndex), t);
  }

  /** The mover is a piece of the side to move, and a captured piece one of the other side. */
  lemma MoverColours(p: Position, m: Move, c: nat)
    requires Fits(p, m) && c < 2
    ensures OfColour(Mover(m), c) == (c == p.friendlyIndex)
    ensures OfColour(Taken(m), c) == (m.IsCapture() && c == Piece.OtherIndex(p.friendlyIndex))
  {
    CaptureTaken(m);
    assert Piece.ColourIndex(Taken(m)) < 2;
  }

  // The mailbox writes of each branch against the flips of colour entry `c`.

  lemma PlainColours(sq: seq<int>, s: nat, e: nat, mover: int, taken: int, capture: bool, c: nat, fi: nat, oi: nat, t: nat)
    requires |sq| == 64 && s < 64 && e < 64 && t < 64 && s != e && sq[s] == mover && sq[e] == taken
    requires !OfColour(Piece.None, c) && OfColour(mover, c) == (c == fi) && OfColour(taken, c) == (capture && c == oi)
    ensures var flips := (c == fi && (t == s || t == e)) != (capture && c == oi && t == e);
      (OfColour(sq[t], c) != flips) == OfColour(sq[s := Piece.None][e := mover][t], c)
  {
  }

  lemma PromotionColours(sq: seq<int>, s: nat, e: nat, mover: int, taken: int, promoted: int, capture: bool, c: nat, fi: nat, oi: nat, t: nat)
    requires |sq| == 64 && s < 64 && e < 64 && t < 64 && s != e && sq[s] == mover && sq[e] == taken
    requires !OfColour(Piece.None, c) && OfColour(mover, c) == (c == fi) && OfColour(taken, c) == (capture && c == oi)
    requires OfColour(promoted, c) == (c == fi)
    ensures var flips := (c == fi && (t == s || t == e)) != (capture && c == oi && t == e);
      (OfColour(sq[t], c) != flips) == OfColour(sq[s := Piece.None][e := mover][e := promoted][t], c)
  {
  }

  lemma PawnColours(sq: seq<int>, s: nat, e: nat, ps: nat, mover: int, taken: int, pawn: int, capture: bool, c: nat, fi: nat, oi: nat, t: nat)
    requires |sq| == 64 && s < 64 && e < 64 && ps < 64 && t < 64 && s != e && ps != s && ps != e
    requires sq[s] == mover && sq[e] == taken && sq[ps] == pawn
    requires !OfColour(Piece.None, c) && OfColour(mover, c) == (c == fi) && OfColour(taken, c) == (capture && c == oi)
    requires OfColour(pawn, c) == (c == oi)
    ensures var flips := ((c == fi && (t == s || t == e)) != (capture && c == oi && t == e)) != (c == oi && t == ps);
      (OfColour(sq[t], c) != flips) == OfColour(sq[s := Piece.None][e := mover][ps := Piece.None][t], c)
  {
  }

  lemma RookColours(sq: seq<int>, s: nat, e: nat, from: nat, to: nat, mover: int, taken: int, rook: int, capture: bool,
      c: nat, fi: nat, oi: nat, t: nat)
    requires RookLayout(sq, s, e, from, to, mover, taken, rook) && t < 64
    requires !OfColour(Piece.None, c) && OfColour(mover, c) == (c == fi) && OfColour(taken, c) == (capture && c == oi)
    requires OfColour(rook, c) == (c == fi)
    ensures var flips := ((c == fi && (t == s || t == e)) != (capture && c == oi && t == e)) != (c == fi && (t == to || t == from));
      (OfColour(sq[t], c) != flips) == OfColour(sq[s := Piece.None][e := mover][from := Piece.None][to := rook][t], c)
  {
  }

  /** A move that fits the position keeps the mailbox, the piece bitboards and the colour
      bitboards in agreement. */
  lemma MoveAgrees(p: Position, m: Move)
    requires Fits(p, m) && Agrees(p)
    ensures Agrees(AfterMove(p, m))
  {
    var q := AfterMove(p, m);
    MoveFields(p, m, 2);
    forall k, t | 0 <= k < 16 && 0 <= t < 64 && !Piece.IsEmpty(k)
      ensures BitOf(q.pieces[k], t) == (q.squares[t] == k)
    {
      MovePieceBit(p, m, k, t);
    }
    forall c, t | 0 <= c < 2 && 0 <= t < 64
      ensures BitOf(q.byColour[c], t) == OfColour(q.squares[t], c)
    {
      MoveColourBit(p, m, c, t);
    }
  }

  /** Taking the move back restores the agreement, since it restores the position. */
  lemma TakeAgrees(p: Position, m: Move, key: ulong)
    requires Fits(p, m) && Agrees(p)
    ensures Undoable(AfterMove(p, m), Entry(p, m, key))
    ensures Agrees(AfterTakeback(AfterMove(p, m), Entry(p, m, key)))
  {
    MakeRoundTrip(p, m, key);
  }

  // ------------------------------------------- the queenside castling as written


  /** The queenside castling as the board makes it does not come back: `MakeMove` moves the
      rook from the square next to the king's target, `Takeback` puts it in the corner, and
      the rook bitboard is left with the square next to the target flipped. */
  lemma {:induction false} QueensideRoundTripFails(p: Position, m: Move, key: ulong)
    requires Restorable(p, m) && SpecialOf(m) == Queenside
    ensures Undoable(AfterMoveAsWritten(p, m), Entry(p, m, key))
    ensures var r := AfterTakeback(AfterMoveAsWritten(p, m), Entry(p, m, key));
      BitOf(r.pieces[RookOf(p.colourToMove)], End(m) - 1) != BitOf(p.pieces[RookOf(p.colourToMove)], End(m) - 1)
    ensures AfterTakeback(AfterMoveAsWritten(p, m), Entry(p, m, key)) != p
  {
    var q, h := AfterMoveAsWritten(p, m), Entry(p, m, key);
    SideBack(p.colourToMove);
    MoveFields(p, m, 1);
    assert Leaves(p, m, 1, q, h);
    LeavesUndoable(p, m, 1, q, h);
    TakeFields(q, h);
    QueensideRookBoard(p, m, q, h);
  }

  lemma QueensideRookBoard(p: Position, m: Move, q: Position, h: BoardHistory)
    requires Playable(p, m) && SpecialOf(m) == Queenside && Undoable(q, h)
    requires h.LastMove == m && q.colourToMove == Piece.OpponentOf(p.colourToMove)
    requires q.pieces == Apply(p.pieces, MovePieceToggles(p, m, 1))
    ensures var rook := RookOf(p.colourToMove);
      BitOf(Apply(q.pieces, TakePieceToggles(q, h))[rook], End(m) - 1) != BitOf(p.pieces[rook], End(m) - 1)
  {
    assert 2 <= End(m) <= 62;
    SideBack(p.colourToMove);
    MoveQueensidePieces(p, m, 1);
    TakeQueensidePieces(q, h);
    RookTogglesFlip(p.pieces, q.pieces, Apply(q.pieces, TakePieceToggles(q, h)), MovePieceToggles(p, m, 1), TakePieceToggles(q, h),
      PieceMoves(m), PieceMoves(h.LastMove), RookOf(p.colourToMove), RookOf(Piece.OpponentOf(q.colourToMove)), End(m), End(h.LastMove));
  }

  /** `RookBoardFlips` with the two lists of toggles named, each with its own names for the rook and the square. */
  lemma RookTogglesFlip(before: seq<ulong>, middle: seq<ulong>, after: seq<ulong>, made: seq<Toggle>, undone: seq<Toggle>,
      front: seq<Toggle>, front': seq<Toggle>, rook: nat, rook': nat, e: nat, e': nat)
    requires rook < |before| && 2 <= e <= 62 && rook' == rook && e' == e && front' == front
    requires made == front + [Toggle(rook, RookBits(e + 1, e - 1))]
    requires undone == front' + [Toggle(rook', RookBits(e' - 2, e' + 1))]
    requires middle == Apply(before, made) && after == Apply(middle, undone)
    ensures BitOf(after[rook], e - 1) != BitOf(before[rook], e - 1)
  {
    RookBoardFlips(before, middle, after, front, rook, e);
  }

  /** What the kingside branch of `MakeMove` writes, against the move on the position. */
  lemma MoveKingsideState(p: Position, m: Move, rook: nat, from: nat, to: nat, bits: ulong, squares: seq<int>,
      kings: seq<int>, pieces: seq<ulong>, byColour: seq<ulong>, castlings: int)
    requires Playable(p, m) && SpecialOf(m) == Kingside
    requires rook == RookOf(p.colourToMove) && from == End(m) + 1 && to == End(m) - 1 && bits == RookBits(to, from)
    requires squares == p.squares[Start(m) := Piece.None][End(m) := Mover(m)][from := Piece.None][to := rook]
    requires kings == p.kings[p.friendlyIndex := End(m)]
    requires pieces == Apply(p.pieces, PieceMoves(m) + [Toggle(rook, bits)])
    requires byColour == Apply(p.byColour, ColourMoves(m, p.friendlyIndex) + [Toggle(p.friendlyIndex, bits)])
    requires castlings == DropSide(CaptureCastlings(p, m), p.whiteToMove)
    ensures squares == MoveSquares(p, m, 2) && kings == MoveKings(p, m) && castlings == MoveCastlings(p, m)
    ensures pieces == Apply(p.pieces, MovePieceToggles(p, m, 2)) && byColour == Apply(p.byColour, MoveColourToggles(p, m, 2))
  {
    MoveKingsidePieces(p, m, 2);
    MoveKingsideColours(p, m, 2);
    MoveKingsideSquares(p, m, 2);
  }

  /** What the queenside branch of `MakeMove` writes, against the move on the position. */
  lemma MoveQueensideState(p: Position, m: Move, rook: nat, from: nat, to: nat, bits: ulong, squares: seq<int>,
      kings: seq<int>, pieces: seq<ulong>, byColour: seq<ulong>, castlings: int)
    requires Playable(p, m) && SpecialOf(m) == Queenside
    requires rook == RookOf(p.colourToMove) && from == End(m) - 2 && to == End(m) + 1 && bits == RookBits(to, from)
    requires squares == p.squares[Start(m) := Piece.None][End(m) := Mover(m)][from := Piece.None][to := rook]
    requires kings == p.kings[p.friendlyIndex := End(m)]
    requires pieces == Apply(p.pieces, PieceMoves(m) + [Toggle(rook, bits)])
    requires byColour == Apply(p.byColour, ColourMoves(m, p.friendlyIndex) + [Toggle(p.friendlyIndex, bits)])
    requires castlings == DropSide(CaptureCastlings(p, m), p.whiteToMove)
    ensures squares == MoveSquares(p, m, 2) && kings == MoveKings(p, m) && castlings == MoveCastlings(p, m)
    ensures pieces == Apply(p.pieces, MovePieceToggles(p, m, 2)) && byColour == Apply(p.byColour, MoveColourToggles(p, m, 2))
  {
    MoveQueensidePieces(p, m, 2);
    MoveQueensideColours(p, m, 2);
    MoveQueensideSquares(p, m, 2);
  }

  // The statements of the two castlings on the bitboards, as `MakeMove` and `Takeback` run them.

  lemma MoveKingsidePieces(p: Position, m: Move, back: nat)
    requires Playable(p, m) && 1 <= back <= 2 && SpecialOf(m) == Kingside
    ensures MovePieceToggles(p, m, back) == PieceMoves(m) + [Toggle(RookOf(p.colourToMove), RookBits(End(m) - 1, End(m) + 1))]
  {
    assert MoveSpecialPieces(p, m, back) == [Toggle(RookOf(p.colourToMove), RookBits(End(m) - 1, End(m) + 1))];
  }

  lemma MoveKingsideColours(p: Position, m: Move, back: nat)
    requires Playable(p, m) && 1 <= back <= 2 && SpecialOf(m) == Kingside
    ensures MoveColourToggles(p, m, back) == ColourMoves(m, p.friendlyIndex) + [Toggle(p.friendlyIndex, RookBits(End(m) - 1, End(m) + 1))]
  {
    assert MoveSpecialColours(p, m, back) == [Toggle(p.friendlyIndex, RookBits(End(m) - 1, End(m) + 1))];
  }

  lemma MoveQueensidePieces(p: Position, m: Move, back: nat)
    requires Playable(p, m) && 1 <= back <= 2 && SpecialOf(m) == Queenside
    ensures MovePieceToggles(p, m, back) == PieceMoves(m) + [Toggle(RookOf(p.colourToMove), RookBits(End(m) + 1, End(m) - back))]
  {
    assert MoveSpecialPieces(p, m, back) == [Toggle(RookOf(p.colourToMove), RookBits(End(m) + 1, End(m) - back))];
  }

  lemma MoveQueensideColours(p: Position, m: Move, back: nat)
    requires Playable(p, m) && 1 <= back <= 2 && SpecialOf(m) == Queenside
    ensures MoveColourToggles(p, m, back) == ColourMoves(m, p.friendlyIndex) + [Toggle(p.friendlyIndex, RookBits(End(m) + 1, End(m) - back))]
  {
    assert 2 <= End(m) <= 62;
    assert MoveSpecialColours(p, m, back) == [Toggle(p.friendlyIndex, RookBits(End(m) + 1, End(m) - back))];
  }

  lemma TakeKingsidePieces(q: Position, h: BoardHistory)
    requires Undoable(q, h) && SpecialOf(h.LastMove) == Kingside
    ensures TakePieceToggles(q, h) == PieceMoves(h.LastMove) + [Toggle(RookOf(Piece.OpponentOf(q.colourToMove)), RookBits(End(h.LastMove) + 1, End(h.LastMove) - 1))]
  {
    assert TakeSpecialPieces(q, h) == [Toggle(RookOf(Piece.OpponentOf(q.colourToMove)), RookBits(End(h.LastMove) + 1, End(h.LastMove) - 1))];
  }

  lemma TakeKingsideColours(q: Position, h: BoardHistory, fi: nat)
    requires Undoable(q, h) && SpecialOf(h.LastMove) == Kingside && fi == Piece.OpponentOf(q.colourToMove) / 8
    ensures TakeColourToggles(q, h) == ColourMoves(h.LastMove, fi) + [Toggle(fi, RookBits(End(h.LastMove) + 1, End(h.LastMove) - 1))]
  {
    assert TakeSpecialColours(q, h) == [Toggle(fi, RookBits(End(h.LastMove) + 1, End(h.LastMove) - 1))];
  }

  lemma TakeQueensidePieces(q: Position, h: BoardHistory)
    requires Undoable(q, h) && SpecialOf(h.LastMove) == Queenside
    ensures TakePieceToggles(q, h) == PieceMoves(h.LastMove) + [Toggle(RookOf(Piece.OpponentOf(q.colourToMove)), RookBits(End(h.LastMove) - 2, End(h.LastMove) + 1))]
  {
    assert TakeSpecialPieces(q, h) == [Toggle(RookOf(Piece.OpponentOf(q.colourToMove)), RookBits(End(h.LastMove) - 2, End(h.LastMove) + 1))];
  }

  lemma TakeQueensideColours(q: Position, h: BoardHistory, fi: nat)
    requires Undoable(q, h) && SpecialOf(h.LastMove) == Queenside && fi == Piece.OpponentOf(q.colourToMove) / 8
    ensures TakeColourToggles(q, h) == ColourMoves(h.LastMove, fi) + [Toggle(fi, RookBits(End(h.LastMove) - 2, End(h.LastMove) + 1))]
  {
    assert TakeSpecialColours(q, h) == [Toggle(fi, RookBits(End(h.LastMove) - 2, End(h.LastMove) + 1))];
  }

  /** What the kingside branch of `Takeback` writes, against the takeback of the position. */
  lemma TakeKingsideState(q: Position, h: BoardHistory, fi: nat, rook: nat, from: nat, to: nat, bits: ulong,
      squares: seq<int>, kings: seq<int>, pieces: seq<ulong>, byColour: seq<ulong>)
    requires Undoable(q, h) && SpecialOf(h.LastMove) == Kingside && fi == Piece.OpponentOf(q.colourToMove) / 8
    requires var m := h.LastMove;
      rook == RookOf(Piece.OpponentOf(q.colourToMove)) && to == End(m) + 1 && from == End(m) - 1 && bits == RookBits(to, from)
    requires var m := h.LastMove;
      squares == q.squares[Start(m) := Mover(m)][End(m) := Taken(m)][to := rook][from := Piece.None]
    requires kings == q.kings[fi := Start(h.LastMove)]
    requires pieces == Apply(q.pieces, PieceMoves(h.LastMove) + [Toggle(rook, bits)])
    requires byColour == Apply(q.byColour, ColourMoves(h.LastMove, fi) + [Toggle(fi, bits)])
    ensures squares == TakeSquares(q, h) && kings == TakeKings(q, h)
    ensures pieces == Apply(q.pieces, TakePieceToggles(q, h)) && byColour == Apply(q.byColour, TakeColourToggles(q, h))
  {
    TakeKingsidePieces(q, h);
    TakeKingsideColours(q, h, fi);
    TakeKingsideSquares(q, h);
  }

  /** What the queenside branch of `Takeback` writes, against the takeback of the position. */
  lemma TakeQueensideState(q: Position, h: BoardHistory, fi: nat, rook: nat, from: nat, to: nat, bits: ulong,
      squares: seq<int>, kings: seq<int>, pieces: seq<ulong>, byColour: seq<ulong>)
    requires Undoable(q, h) && SpecialOf(h.LastMove) == Queenside && fi == Piece.OpponentOf(q.colourToMove) / 8
    requires var m := h.LastMove;
      rook == RookOf(Piece.OpponentOf(q.colourToMove)) && to == End(m) - 2 && from == End(m) + 1 && bits == RookBits(to, from)
    requires var m := h.LastMove;
      squares == q.squares[Start(m) := Mover(m)][End(m) := Taken(m)][to := rook][from := Piece.None]
    requires kings == q.kings[fi := Start(h.LastMove)]
    requires pieces == Apply(q.pieces, PieceMoves(h.LastMove) + [Toggle(rook, bits)])
    requires byColour == Apply(q.byColour, ColourMoves(h.LastMove, fi) + [Toggle(fi, bits)])
    ensures squares == TakeSquares(q, h) && kings == TakeKings(q, h)
    ensures pieces == Apply(q.pieces, TakePieceToggles(q, h)) && byColour == Apply(q.byColour, TakeColourToggles(q, h))
  {
    TakeQueensidePieces(q, h);
    TakeQueensideColours(q, h, fi);
    TakeQueensideSquares(q, h);
  }

  /** The rook statement as made and as undone leave the square next to the king's target
      flipped, whatever ran before them. */
  lemma RookBoardFlips(before: seq<ulong>, middle: seq<ulong>, after: seq<ulong>, front: seq<Toggle>, rook: nat, e: nat)
    requires rook < |before| && 2 <= e <= 62
    requires middle == Apply(before, front + [Toggle(rook, RookBits(e + 1, e - 1))])
    requires after == Apply(middle, front + [Toggle(rook, RookBits(e - 2, e + 1))])
    ensures BitOf(after[rook], e - 1) != BitOf(before[rook], e - 1)
  {
    var made, undone := Toggle(rook, RookBits(e + 1, e - 1)), Toggle(rook, RookBits(e - 2, e + 1));
    SameStatementsBut(before, front, made, undone);
    RookBitsDiffer(e);
    UXorAt(before[rook], UXor(made.bits, undone.bits), e - 1);
  }

  /** Two runs of the same statements but the last, which touch the same entry: that entry
      ends up with both last statements xor-ed in. */
  lemma SameStatementsBut(bitboards: seq<ulong>, front: seq<Toggle>, made: Toggle, undone: Toggle)
    requires made.index == undone.index < |bitboards|
    ensures var k := made.index;
      Apply(Apply(bitboards, front + [made]), front + [undone])[k] == UXor(bitboards[k], UXor(made.bits, undone.bits))
  {
    var k := made.index;
    XorAtSnoc(front, made, k);
    XorAtSnoc(front, undone, k);
    XorBoth(bitboards[k], XorAt(front, k), made.bits, undone.bits);
  }

  /** Xor-ing in `x ^ a` and then `x ^ c` xors in `a ^ c`. */
  lemma XorBoth(b: ulong, x: ulong, a: ulong, c: ulong)
    ensures UXor(UXor(b, UXor(x, a)), UXor(x, c)) == UXor(b, UXor(a, c))
  {
    UXorAlgebra(b, UXor(x, a), UXor(x, c));
    UXorAlgebra(x, a, UXor(x, c));
    UXorAlgebra(a, x, c);
    UXorAlgebra(x, a, 0);
    UXorAlgebra(UXor(a, x), x, c);
    UXorAlgebra(a, x, x);
    UXorAlgebra(x, x, 0);
    UXorAlgebra(a, 0, 0);
  }

  /** The two rook moves differ on the square next to the king's target. */
  lemma RookBitsDiffer(e: nat)
    requires 2 <= e <= 62
    ensures BitOf(UXor(RookBits(e + 1, e - 1), RookBits(e - 2, e + 1)), e - 1)
  {
    var k := e - 1;
    UXorAt(RookBits(e + 1, e - 1), RookBits(e - 2, e + 1), k);
    UOrAt(SquareBit(e + 1), SquareBit(e - 1), k);
    UOrAt(SquareBit(e - 2), SquareBit(e + 1), k);
    SquareBitAt(e + 1, k);
    SquareBitAt(e - 1, k);
    SquareBitAt(e - 2, k);
  }

  // ------------------------------------------------------------ the board

  /** Each king square is a square, or -1 while that king is not on the board. */
  predicate KingsPlaced(kings: seq<int>) {
    forall i | 0 <= i < |kings| :: kings[i] == -1 || IsSquare(kings[i])
  }

  /** `MakeMove` puts a king only on a square. */
  lemma MoveKingsPlaced(p: Position, m: Move)
    requires Playable(p, m) && KingsPlaced(p.kings)
    ensures KingsPlaced(MoveKings(p, m))
  {
  }

  /** So does `Takeback`. */
  lemma TakeKingsPlaced(q: Position, h: BoardHistory)
    requires Undoable(q, h) && KingsPlaced(q.kings)
    ensures KingsPlaced(TakeKings(q, h))
  {
  }

  /** `(a >> k) & 1 == 1` tests bit `k`. */
  lemma ShiftedBit(a: ulong, k: nat)
    requires k < 64
    ensures UAnd(UShr(a, k), 1) == 1 <==> BitOf(a, k)
  {
    assert k % 64 == k;
    UShrAt(a, k, 0);
    LowBit(UShr(a, k));
  }

  /** `x & 1 == 1` tests the lowest bit. */
  lemma LowBit(x: ulong)
    ensures UAnd(x, 1) == 1 <==> BitOf(x, 0)
  {
    AndOne(x);
  }

  /** `x & 1` is the lowest digit of `x`. */
  lemma AndOne(x: nat)
    ensures AndBits(x, 1) == x % 2
  {
    AndZero(x / 2);
  }

  lemma {:induction false} AndZero(x: nat)
    ensures AndBits(x, 0) == 0
    decreases x
  {
    if x != 0 {
      AndZero(x / 2);
    }
  }

  /** The position `MakeMove` leaves, put together field by field. */
  lemma AfterMoveIs(p: Position, m: Move, q: Position)
    requires Playable(p, m)
    requires q.squares == MoveSquares(p, m, 2) && q.kings == MoveKings(p, m)
    requires q.pieces == Apply(p.pieces, MovePieceToggles(p, m, 2))
    requires q.byColour == Apply(p.byColour, MoveColourToggles(p, m, 2))
    requires |q.byColour| == 2 && q.occupied == UOr(q.byColour[0], q.byColour[1])
    requires q.whiteToMove == !p.whiteToMove && q.colourToMove == Piece.OpponentOf(p.colourToMove)
    requires q.friendlyIndex == q.colourToMove / 8 && q.castlings == MoveCastlings(p, m)
    requires q.enpassant == if m.IsDoublePawnPush() then (Start(m) + if p.whiteToMove then 8 else -8) as int32 else -1
    requires q.halfMoves == (if m.IsHalfmove() then Add(p.halfMoves, 1) else 0)
    requires q.fullMoves == (if !p.whiteToMove then Add(p.fullMoves, 1) else p.fullMoves)
    ensures q == AfterMove(p, m)
  {
  }

  /** The position `Takeback` leaves, put together field by field. */
  lemma AfterTakebackIs(q: Position, h: BoardHistory, r: Position)
    requires Undoable(q, h)
    requires r.squares == TakeSquares(q, h) && r.kings == TakeKings(q, h)
    requires r.pieces == Apply(q.pieces, TakePieceToggles(q, h))
    requires r.byColour == Apply(q.byColour, TakeColourToggles(q, h))
    requires |r.byColour| == 2 && r.occupied == UOr(r.byColour[0], r.byColour[1])
    requires r.whiteToMove == !q.whiteToMove && r.colourToMove == Piece.OpponentOf(q.colourToMove)
    requires r.friendlyIndex == r.colourToMove / 8
    requires r.castlings == h.Castlings && r.enpassant == h.EnpassantSquare
    requires r.halfMoves == h.HalfMoveCount && r.fullMoves == h.FullMoveCount
    ensures r == AfterTakeback(q, h)
  {
  }

  /** The entry `MakeMove` pushes fits the position it leaves. */
  lemma UndoableAfterMove(p: Position, m: Move, key: ulong)
    requires Playable(p, m)
    ensures Undoable(AfterMove(p, m), Entry(p, m, key))
  {
    MoveFields(p, m, 2);
    SideBack(p.colourToMove);
  }

  /** `bitboards[t.index] ^= t.bits`: one more statement of a run. */
  method Flip(bitboards: array<ulong>, t: Toggle, ghost before: seq<ulong>, ghost done: seq<Toggle>)
    requires t.index < bitboards.Length && bitboards[..] == Apply(before, done)
    modifies bitboards
    ensures bitboards[..] == Apply(before, done + [t])
  {
    ApplySnoc(before, done, t);
    bitboards[t.index] := UXor(bitboards[t.index], t.bits);
  }

  /** No side attacks anything on a board without pieces. */
  lemma NothingAttacked(pieces: seq<ulong>, occupied: ulong, colour: int, t: nat)
    requires |pieces| == 16 && (colour == Piece.White || colour == Piece.Black)
    requires forall i | 0 <= i < 16 :: pieces[i] == 0
    ensures !Attacks.Attacked(pieces, occupied, colour, t)
  {
    forall s: nat
      ensures !BitOf(0, s)
    {
      ZeroBits(s);
    }
  }

  /** A position the board can hold: well formed, each king on a square or off the board,
      and the occupied set the union of the two colour sets. */
  predicate Consistent(p: Position) {
    Shaped(p) && KingsPlaced(p.kings) && |p.byColour| == 2 && p.occupied == UOr(p.byColour[0], p.byColour[1])
  }

  /** `MakeMove` keeps a position consistent. */
  lemma MoveConsistent(p: Position, m: Move)
    requires Playable(p, m) && Consistent(p)
    ensures Consistent(AfterMove(p, m))
  {
    MoveFields(p, m, 2);
    MoveKingsPlaced(p, m);
  }

  /** So does `Takeback`. */
  lemma TakeConsistent(q: Position, h: BoardHistory)
    requires Undoable(q, h) && Consistent(q)
    ensures Consistent(AfterTakeback(q, h))
  {
    TakeFields(q, h);
    TakeKingsPlaced(q, h);
  }

  /** The empty board: no pieces, no kings, White to move, no castling rights and no
      en-passant square, `fullMoves` as the full-move counter. */
  function EmptyPosition(fullMoves: int32): (p: Position)
    ensures Consistent(p)
  {
    BitsEqual(UOr(0, 0), 0);
    Position(seq(64, _ => Piece.None), [-1, -1], seq(16, _ => 0), [0, 0], 0,
      true, Piece.White, 0, Flags.None, -1, 0, fullMoves)
  }

  method EmptyArrays() returns (squares: array<int>, kings: array<int>, pieces: array<ulong>, byColour: array<ulong>)
    ensures fresh(squares) && fresh(kings) && fresh(pieces) && fresh(byColour)
    ensures squares[..] == EmptyPosition(0).squares && kings[..] == EmptyPosition(0).kings
    ensures pieces[..] == EmptyPosition(0).pieces && byColour[..] == EmptyPosition(0).byColour
  {
    squares := new int[64](_ => Piece.None);
    kings := new int[2](_ => -1);
    pieces := new ulong[16](_ => 0);
    byColour := new ulong[2](_ => 0);
  }

  class Board {
    var Squares: array<int>
    var Kings: array<int>
    var Pieces: array<ulong>
    var PiecesByColour: array<ulong>
    var OccupiedSquares: ulong
    var OpponentAttacks: ulong

    var WhiteToMove: bool
    var ColourToMove: int
    var FriendlyColourIndex: int

    var Castlings: int
    var EnpassantSquare: int32
    var HalfMoveCount: int32
    var FullMoveCount: int32

    var PositionKey: ulong
    var History: seq<BoardHistory>

    /** The move tables and the key tables, static in the engine. */
    const tables: Tables
    const keys: Zobrist.KeyTables

    /** The arrays have their sizes, and the two of each element type are distinct. */
    predicate Arrays()
      reads this
    {
      Squares.Length == 64 && Kings.Length == 2 && Pieces.Length == 16 && PiecesByColour.Length == 2 &&
      Squares != Kings && Pieces != PiecesByColour
    }

    /** The position the board holds. */
    ghost function State(): Position
      reads this, Squares, Kings, Pieces, PiecesByColour
    {
      Position(Squares[..], Kings[..], Pieces[..], PiecesByColour[..], OccupiedSquares,
        WhiteToMove, ColourToMove, FriendlyColourIndex, Castlings, EnpassantSquare, HalfMoveCount, FullMoveCount)
    }

    /** The opponent-attack map holds exactly the squares the side not to move attacks. */
    ghost predicate AttacksKnown()
      requires Pieces.Length == 16 && (ColourToMove == Piece.White || ColourToMove == Piece.Black)
      reads this, Pieces
    {
      forall t: nat :: BitOf(OpponentAttacks, t) <==>
        Attacks.Attacked(Pieces[..], OccupiedSquares, Piece.OpponentOf(ColourToMove), t)
    }

    /** The board invariant: the arrays have their sizes, the position they hold is
        consistent, and the attack map is up to date. */
    ghost predicate Valid()
      reads this, Squares, Kings, Pieces, PiecesByColour
    {
      Arrays() && tables.Valid() && keys.Valid() && Consistent(State()) && AttacksKnown()
    }

    /** The key of the position the board holds. */
    ghost function Key(): ulong
      requires Arrays() && keys.Valid() && Zobrist.IsMailbox(Squares[..]) && 0 <= Castlings < 16
      reads this, Squares
    {
      Zobrist.KeyOf(keys, Squares[..], EnpassantSquare, WhiteToMove, Castlings)
    }

    /** A new board: empty, White to move, full-move counter 1, no history. */
    constructor (tables: Tables, keys: Zobrist.KeyTables)
      requires tables.Valid() && keys.Valid()
      ensures Valid() && State() == EmptyPosition(1)
      ensures History == [] && PositionKey == Key()
      ensures this.tables == tables && this.keys == keys
    {
      var squares, kings, pieces, byColour := EmptyArrays();
      Squares, Kings, Pieces, PiecesByColour := squares, kings, pieces, byColour;
      WhiteToMove, ColourToMove, FriendlyColourIndex := true, Piece.White, 0;
      OccupiedSquares, OpponentAttacks := 0, 0;
      Castlings, EnpassantSquare, HalfMoveCount, FullMoveCount := Flags.None, -1, 0, 1;
      var key := Zobrist.Create(keys, squares, -1, true, Flags.None);
      PositionKey, History := key, [];
      this.tables := tables;
      this.keys := keys;
      new;
      EmptyBoard();
    }

    /** Empties the board again; unlike the constructor, the full-move counter is set to 0. */
    method Reset()
      requires tables.Valid() && keys.Valid()
      modifies this
      ensures Valid() && State() == EmptyPosition(0)
      ensures History == [] && PositionKey == Key()
      ensures fresh(Squares) && fresh(Kings) && fresh(Pieces) && fresh(PiecesByColour)
    {
      var squares, kings, pieces, byColour := EmptyArrays();
      var key := Zobrist.Create(keys, squares, -1, true, Flags.None);
      Install(squares, kings, pieces, byColour, key);
      Clear(0);
      EmptyState(0);
    }

    /** The new arrays and their key, with an empty history. */
    method Install(squares: array<int>, kings: array<int>, pieces: array<ulong>, byColour: array<ulong>, key: ulong)
      modifies this`Squares, this`Kings, this`Pieces, this`PiecesByColour, this`PositionKey, this`History
      ensures Squares == squares && Kings == kings && Pieces == pieces && PiecesByColour == byColour
      ensures PositionKey == key && History == []
    {
      Squares, Kings, Pieces, PiecesByColour := squares, kings, pieces, byColour;
      PositionKey, History := key, [];
    }

    /** The scalar fields of the empty board. */
    method Clear(fullMoves: int32)
      modifies this`OccupiedSquares, this`WhiteToMove, this`ColourToMove, this`FriendlyColourIndex,
        this`OpponentAttacks, this`Castlings, this`EnpassantSquare, this`HalfMoveCount, this`FullMoveCount
      ensures OccupiedSquares == 0 && WhiteToMove && ColourToMove == Piece.White && FriendlyColourIndex == 0
      ensures OpponentAttacks == 0 && Castlings == Flags.None && EnpassantSquare == -1
      ensures HalfMoveCount == 0 && FullMoveCount == fullMoves
    {
      OccupiedSquares := 0;
      WhiteToMove := true;
      ColourToMove := Piece.White;
      FriendlyColourIndex := 0;
      OpponentAttacks := 0;
      Castlings := Flags.None;
      EnpassantSquare := -1;
      HalfMoveCount := 0;
      FullMoveCount := fullMoves;
    }

    /** The board holds the empty position once its arrays and fields are those of it. */
    lemma EmptyState(fullMoves: int32)
      requires tables.Valid() && keys.Valid() && Squares != Kings && Pieces != PiecesByColour
      requires var e := EmptyPosition(fullMoves);
        Squares[..] == e.squares && Kings[..] == e.kings && Pieces[..] == e.pieces && PiecesByColour[..] == e.byColour
      requires OccupiedSquares == 0 && OpponentAttacks == 0 && WhiteToMove && ColourToMove == Piece.White
      requires FriendlyColourIndex == 0 && Castlings == Flags.None && EnpassantSquare == -1
      requires HalfMoveCount == 0 && FullMoveCount == fullMoves
      ensures Valid() && State() == EmptyPosition(fullMoves)
    {
      assert Pieces.Length == |EmptyPosition(fullMoves).pieces| == 16;
      assert forall i | 0 <= i < 16 :: Pieces[i] == Pieces[..][i] == 0;
      EmptyBoard();
    }

    /** The facts of the empty board the invariant needs. */
    lemma EmptyBoard()
      requires Pieces.Length == 16 && forall i | 0 <= i < 16 :: Pieces[i] == 0
      requires OpponentAttacks == 0 && ColourToMove == Piece.White
      ensures AttacksKnown()
    {
      forall t: nat
        ensures !BitOf(0, t) && !Attacks.Attacked(Pieces[..], OccupiedSquares, Piece.Black, t)
      {
        ZeroBits(t);
        NothingAttacked(Pieces[..], OccupiedSquares, Piece.Black, t);
      }
    }

    /** Whether the king of the side to move stands on a square the other side attacks. */
    function IsCheck(): (check: bool)
      requires Valid()
      reads this, Squares, Kings, Pieces, PiecesByColour
      ensures IsSquare(Kings[FriendlyColourIndex]) ==>
        (check <==> Attacks.Attacked(Pieces[..], OccupiedSquares, Piece.OpponentOf(ColourToMove), Kings[FriendlyColourIndex]))
    {
      var king := Kings[FriendlyColourIndex];
      if IsSquare(king) then
        ShiftedBit(OpponentAttacks, king);
        UAnd(UShr(OpponentAttacks, king), 1) == 1
      else
        UAnd(UShr(OpponentAttacks, king), 1) == 1
    }

    /** Makes a move, then takes it back if it leaves the mover's king attacked. A legal
        move leaves the position `AfterMove` describes, with one more history entry holding
        the key, rights, en-passant square and counters from before; an illegal one leaves
        the position `Takeback` makes of it, which is the position from before whenever the
        move fits it. A fitting move keeps the mailbox and the bitboards in agreement. */
    method MakeMove(move: Move) returns (legal: bool)
      requires Valid() && Playable(State(), move)
      modifies this, Squares, Kings, Pieces, PiecesByColour
      ensures Valid() && Squares == old(Squares) && Kings == old(Kings)
      ensures Pieces == old(Pieces) && PiecesByColour == old(PiecesByColour)
      ensures var q := AfterMove(old(State()), move);
        var king := q.kings[Piece.OtherIndex(q.friendlyIndex)];
        legal <==> !(king != -1 && Attacks.Attacked(q.pieces, q.occupied, q.colourToMove, king))
      ensures legal ==> (State() == AfterMove(old(State()), move) && PositionKey == Key() &&
        History == old(History) + [Entry(old(State()), move, old(PositionKey))])
      ensures !legal ==> (State() == AfterTakeback(AfterMove(old(State()), move), Entry(old(State()), move, old(PositionKey))) &&
        PositionKey == old(PositionKey) && History == old(History))
      ensures !legal && Restorable(old(State()), move) ==> State() == old(State())
      ensures Fits(old(State()), move) && Agrees(old(State())) ==> Agrees(State())
    {
      ghost var p, key, before := State(), PositionKey, History;
      if Fits(p, move) && Agrees(p) {
        MoveAgrees(p, move);
      }
      Advance(move);
      var king := Kings[Piece.OtherIndex(FriendlyColourIndex)];
      if king != -1 {
        var attacked := Attacks.IsAttacked(tables, Pieces, OccupiedSquares, ColourToMove, king);
        if attacked {
          Refuse(p, move, key, before);
          return false;
        }
      }
      return true;
    }

    /** The takeback of a move `MakeMove` found illegal: the position `Takeback` makes of
        it, and the history and key from before. */
    method Refuse(ghost p: Position, move: Move, ghost key: ulong, ghost before: seq<BoardHistory>)
      requires Valid() && Playable(p, move) && State() == AfterMove(p, move)
      requires History == before + [Entry(p, move, key)]
      modifies this, Squares, Kings, Pieces, PiecesByColour
      ensures Valid() && Squares == old(Squares) && Kings == old(Kings)
      ensures Pieces == old(Pieces) && PiecesByColour == old(PiecesByColour)
      ensures State() == AfterTakeback(AfterMove(p, move), Entry(p, move, key))
      ensures PositionKey == key && History == before
      ensures Restorable(p, move) ==> State() == p
    {
      UndoableAfterMove(p, move, key);
      var _ := Takeback();
      if Restorable(p, move) {
        MakeRoundTrip(p, move, key);
      }
    }

    /** `MakeMove` up to the legality test: the history entry, the position `AfterMove`
        describes, its attack map and its key. */
    method Advance(move: Move)
      requires Valid() && Playable(State(), move)
      modifies this, Squares, Kings, Pieces, PiecesByColour
      ensures Valid() && Squares == old(Squares) && Kings == old(Kings)
      ensures Pieces == old(Pieces) && PiecesByColour == old(PiecesByColour)
      ensures State() == AfterMove(old(State()), move) && PositionKey == Key()
      ensures History == old(History) + [Entry(old(State()), move, old(PositionKey))]
    {
      ghost var p := State();
      Record(move);
      Step(move, p);
    }

    /** `History.Add(new BoardHistory(...))`: the key, rights, en-passant square and
        counters from before the move. */
    method Record(move: Move)
      modifies this`History
      ensures History == old(History) + [BoardHistory(PositionKey, move, Castlings, EnpassantSquare, HalfMoveCount, FullMoveCount)]
    {
      History := History + [BoardHistory(PositionKey, move, Castlings, EnpassantSquare, HalfMoveCount, FullMoveCount)];
    }

    /** `MakeMove` after the history entry: the position `AfterMove` describes, its key and
        its attack map. */
    method Step(move: Move, ghost p: Position)
      requires Arrays() && tables.Valid() && keys.Valid() && Playable(p, move) && Consistent(p) && State() == p
      modifies this`HalfMoveCount, this`FullMoveCount, this`Castlings, this`OccupiedSquares, this`EnpassantSquare,
        this`WhiteToMove, this`ColourToMove, this`FriendlyColourIndex, this`OpponentAttacks, this`PositionKey,
        Squares, Kings, Pieces, PiecesByColour
      ensures Valid() && State() == AfterMove(p, move) && PositionKey == Key()
    {
      Play(move, p);
      MoveConsistent(p, move);
      Rekey();
      Attack();
    }

    /** The key of the position, computed afresh from the squares and the flags. */
    method Rekey()
      requires Arrays() && keys.Valid() && Zobrist.IsMailbox(Squares[..]) && 0 <= Castlings < 16
      modifies this`PositionKey
      ensures PositionKey == Key() && State() == old(State())
    {
      PositionKey := Zobrist.Create(keys, Squares, EnpassantSquare, WhiteToMove, Castlings);
    }

    /** `MakeMove` from the counters to the side to move: the position `AfterMove`
        describes, before the attack map and the key. */
    method Play(move: Move, ghost p: Position)
      requires Arrays() && Playable(p, move) && State() == p
      modifies this`HalfMoveCount, this`FullMoveCount, this`Castlings, this`OccupiedSquares, this`EnpassantSquare,
        this`WhiteToMove, this`ColourToMove, this`FriendlyColourIndex, Squares, Kings, Pieces, PiecesByColour
      ensures State() == AfterMove(p, move)
    {
      Count(move);
      Shift(move, p);
      Pass(move);
      AfterMoveIs(p, move, State());
    }

    /** `MakeMove` on the pieces and the castling rights, with the side to move and the
        en-passant square still as before: the board as `MoveDone` describes it. */
    method Shift(move: Move, ghost p: Position)
      requires Arrays() && Playable(p, move)
      requires Squares[..] == p.squares && Kings[..] == p.kings && Pieces[..] == p.pieces && PiecesByColour[..] == p.byColour
      requires WhiteToMove == p.whiteToMove && ColourToMove == p.colourToMove
      requires FriendlyColourIndex == p.friendlyIndex && EnpassantSquare == p.enpassant && Castlings == p.castlings
      modifies this`Castlings, Squares, Kings, Pieces, PiecesByColour
      ensures MoveDone(p, move)
    {
      MovePieces(move, p);
      MoveSpecial(move, p);
    }

    /** The two counters: the half-move clock counts on or restarts, and the full-move
        counter goes up after Black's move. */
    method Count(move: Move)
      modifies this`HalfMoveCount, this`FullMoveCount
      ensures HalfMoveCount == if move.IsHalfmove() then Add(old(HalfMoveCount), 1) else 0
      ensures FullMoveCount == if !WhiteToMove then Add(old(FullMoveCount), 1) else old(FullMoveCount)
    {
      HalfMoveCount := if move.IsHalfmove() then Add(HalfMoveCount, 1) else 0;
      if !WhiteToMove {
        FullMoveCount := Add(FullMoveCount, 1);
      }
    }

    /** The end of `MakeMove` before the attack map: the occupied set, the en-passant square
        a double push leaves behind, and the other side to move. */
    method Pass(move: Move)
      requires PiecesByColour.Length == 2 && (ColourToMove == Piece.White || ColourToMove == Piece.Black)
      modifies this`OccupiedSquares, this`EnpassantSquare, this`WhiteToMove, this`ColourToMove, this`FriendlyColourIndex
      ensures OccupiedSquares == UOr(PiecesByColour[0], PiecesByColour[1])
      ensures EnpassantSquare == if move.IsDoublePawnPush() then (Start(move) + if old(WhiteToMove) then 8 else -8) as int32 else -1
      ensures WhiteToMove == !old(WhiteToMove) && ColourToMove == Piece.OpponentOf(old(ColourToMove))
      ensures FriendlyColourIndex == ColourToMove / 8
    {
      OccupiedSquares := UOr(PiecesByColour[0], PiecesByColour[1]);
      EnpassantSquare := if move.IsDoublePawnPush() then (Start(move) + if WhiteToMove then 8 else -8) as int32 else -1;
      Turn();
    }

    /** `WhiteToMove = !WhiteToMove; ColourToMove ^= 8; FriendlyColourIndex = ColourToMove >> 3`. */
    method Turn()
      requires ColourToMove == Piece.White || ColourToMove == Piece.Black
      modifies this`WhiteToMove, this`ColourToMove, this`FriendlyColourIndex
      ensures WhiteToMove == !old(WhiteToMove) && ColourToMove == Piece.OpponentOf(old(ColourToMove))
      ensures FriendlyColourIndex == ColourToMove / 8
    {
      WhiteToMove := !WhiteToMove;
      ColourToMove := Piece.OpponentOf(ColourToMove);
      FriendlyColourIndex := ColourToMove / 8;
    }

    /** The attack map, recomputed for the side to move. */
    method Attack()
      requires Arrays() && tables.Valid() && (ColourToMove == Piece.White || ColourToMove == Piece.Black)
      modifies this`OpponentAttacks
      ensures AttacksKnown() && State() == old(State())
    {
      OpponentAttacks := Attacks.GenerateOpponentAttacks(tables, Pieces, OccupiedSquares, ColourToMove);
    }

    /** `Pieces[piece] ^= bits; PiecesByColour[colourIndex] ^= bits`. */
    method FlipBoth(piece: nat, colourIndex: nat, bits: ulong, ghost pieces: seq<ulong>, ghost pieceMoves: seq<Toggle>,
      ghost byColour: seq<ulong>, ghost colourMoves: seq<Toggle>)
      requires Arrays() && piece < 16 && colourIndex < 2
      requires Pieces[..] == Apply(pieces, pieceMoves) && PiecesByColour[..] == Apply(byColour, colourMoves)
      modifies Pieces, PiecesByColour
      ensures Pieces[..] == Apply(pieces, pieceMoves + [Toggle(piece, bits)])
      ensures PiecesByColour[..] == Apply(byColour, colourMoves + [Toggle(colourIndex, bits)])
    {
      Flip(Pieces, Toggle(piece, bits), pieces, pieceMoves);
      Flip(PiecesByColour, Toggle(colourIndex, bits), byColour, colourMoves);
    }

    /** `MakeMove` up to the special moves: the mover goes from its starting square to its
        ending square, and a captured piece leaves the board, a captured rook with the
        castling right of its corner. */
    method MovePieces(move: Move, ghost p: Position)
      requires Arrays() && Playable(p, move)
      requires Squares[..] == p.squares && Pieces[..] == p.pieces && PiecesByColour[..] == p.byColour
      requires FriendlyColourIndex == p.friendlyIndex && Castlings == p.castlings
      modifies this`Castlings, Squares, Pieces, PiecesByColour
      ensures Squares[..] == p.squares[Start(move) := Piece.None][End(move) := Mover(move)]
      ensures Pieces[..] == Apply(p.pieces, PieceMoves(move))
      ensures PiecesByColour[..] == Apply(p.byColour, ColourMoves(move, p.friendlyIndex))
      ensures Castlings == CaptureCastlings(p, move)
    {
      WriteTwo(Squares, Start(move), Piece.None, End(move), Mover(move));
      FlipMoved(move, p.pieces, p.byColour);
      if move.IsCapture() && Piece.Type(Taken(move)) == Piece.Rook {
        Castlings := DropRight(Castlings, End(move));
      }
    }

    /** The bitboard statements `MakeMove` and `Takeback` both start with: the mover's two
        squares toggled on its piece and colour entries, and on a capture the ending square on
        the captured piece's entries. */
    method FlipMoved(move: Move, ghost pieces: seq<ulong>, ghost byColour: seq<ulong>)
      requires Arrays() && Mover(move) < 16 && Taken(move) < 16 && 0 <= FriendlyColourIndex < 2
      requires Pieces[..] == pieces && PiecesByColour[..] == byColour
      modifies Pieces, PiecesByColour
      ensures Pieces[..] == Apply(pieces, PieceMoves(move))
      ensures PiecesByColour[..] == Apply(byColour, ColourMoves(move, FriendlyColourIndex))
    {
      var s, e := Start(move), End(move);
      var bitboard := UOr(SquareBit(s), SquareBit(e));
      ApplyNone(pieces);
      ApplyNone(byColour);
      FlipBoth(Mover(move), FriendlyColourIndex, bitboard, pieces, [], byColour, []);
      assert [] + [Toggle(Mover(move), bitboard)] == [Toggle(Mover(move), bitboard)];
      assert [] + [Toggle(FriendlyColourIndex, bitboard)] == [Toggle(FriendlyColourIndex, bitboard)];
      if move.IsCapture() {
        bitboard := SquareBit(e);
        FlipBoth(Taken(move), Piece.OtherIndex(FriendlyColourIndex), bitboard,
          pieces, [Toggle(Mover(move), UOr(SquareBit(s), SquareBit(e)))],
          byColour, [Toggle(FriendlyColourIndex, UOr(SquareBit(s), SquareBit(e)))]);
      }
    }

    /** The board halfway through `MakeMove` of `move` on `p`: the mover has moved and a
        captured piece is gone. */
    ghost predicate MoveHalfway(p: Position, move: Move)
      requires Playable(p, move)
      reads this, Squares, Kings, Pieces, PiecesByColour
    {
      Arrays() &&
      Squares[..] == p.squares[Start(move) := Piece.None][End(move) := Mover(move)] &&
      Pieces[..] == Apply(p.pieces, PieceMoves(move)) &&
      PiecesByColour[..] == Apply(p.byColour, ColourMoves(move, p.friendlyIndex)) &&
      Castlings == CaptureCastlings(p, move) && Kings[..] == p.kings &&
      WhiteToMove == p.whiteToMove && ColourToMove == p.colourToMove &&
      FriendlyColourIndex == p.friendlyIndex && EnpassantSquare == p.enpassant
    }

    /** The pieces, kings and rights as `MakeMove` of `move` on `p` leaves them. */
    ghost predicate MoveDone(p: Position, move: Move)
      requires Playable(p, move)
      reads this, Squares, Kings, Pieces, PiecesByColour
    {
      Squares[..] == MoveSquares(p, move, 2) && Kings[..] == MoveKings(p, move) &&
      Pieces[..] == Apply(p.pieces, MovePieceToggles(p, move, 2)) &&
      PiecesByColour[..] == Apply(p.byColour, MoveColourToggles(p, move, 2)) &&
      Castlings == MoveCastlings(p, move)
    }

    /** The branches of `MakeMove` for a promotion, an en-passant capture, the two
        castlings, a king move and a rook move. */
    method MoveSpecial(move: Move, ghost p: Position)
      requires Playable(p, move) && MoveHalfway(p, move)
      modifies this`Castlings, Squares, Kings, Pieces, PiecesByColour
      ensures MoveDone(p, move)
    {
      if move.IsPromotion() {
        MovePromotion(move, p);
      } else if move.IsEnpassantCapture() {
        MoveEnpassant(move, p);
      } else if move.IsKingsideCastling() {
        MoveKingside(move, p);
      } else if move.IsQueensideCastling() {
        MoveQueenside(move, p);
      } else {
        MovePlain(move, p);
      }
    }

    method MovePromotion(move: Move, ghost p: Position)
      requires Playable(p, move) && SpecialOf(move) == Promotion && MoveHalfway(p, move)
      modifies Squares, Pieces
      ensures MoveDone(p, move)
    {
      var e := End(move);
      var promotion := Piece.WithColour(move.PromotionType(), ColourToMove);
      Squares[e] := promotion;
      var bitboard := SquareBit(e);
      ghost var pieceMoves := PieceMoves(move);
      var pawn := Toggle(Mover(move), bitboard);
      Flip(Pieces, pawn, p.pieces, pieceMoves);
      Flip(Pieces, Toggle(promotion, bitboard), p.pieces, pieceMoves + [pawn]);
      assert pieceMoves + [pawn] + [Toggle(promotion, bitboard)] == pieceMoves + [pawn, Toggle(promotion, bitboard)];
      assert ColourMoves(move, p.friendlyIndex) + [] == ColourMoves(move, p.friendlyIndex);
      MovePromotionSquares(p, move, 2);
    }

    method MoveEnpassant(move: Move, ghost p: Position)
      requires Playable(p, move) && SpecialOf(move) == Enpassant && MoveHalfway(p, move)
      modifies Squares, Pieces, PiecesByColour
      ensures MoveDone(p, move)
    {
      var pawnSquare := EnpassantSquare as int + (if WhiteToMove then -8 else 8);
      Squares[pawnSquare] := Piece.None;
      FlipBoth(Piece.WithColour(Piece.Pawn, Piece.OpponentOf(ColourToMove)), Piece.OtherIndex(FriendlyColourIndex),
        SquareBit(pawnSquare), p.pieces, PieceMoves(move), p.byColour, ColourMoves(move, p.friendlyIndex));
      MoveEnpassantSquares(p, move, 2);
    }

    method MoveKingside(move: Move, ghost p: Position)
      requires Playable(p, move) && SpecialOf(move) == Kingside && MoveHalfway(p, move)
      modifies this`Castlings, Squares, Kings, Pieces, PiecesByColour
      ensures MoveDone(p, move)
    {
      var e, fi := End(move), FriendlyColourIndex;
      var friendlyRook := Piece.WithColour(Piece.Rook, ColourToMove);
      var rookStart, rookEnd := e + 1, e - 1;
      WriteTwo(Squares, rookStart, Piece.None, rookEnd, friendlyRook);
      Castlings := DropSide(Castlings, WhiteToMove);
      WriteOne(Kings, fi, e);
      var bits := RookBits(rookEnd, rookStart);
      FlipBoth(friendlyRook, fi, bits, p.pieces, PieceMoves(move), p.byColour, ColourMoves(move, fi));
      MoveKingsideState(p, move, friendlyRook, rookStart, rookEnd, bits, Squares[..], Kings[..], Pieces[..], PiecesByColour[..], Castlings);
    }

    /** The queenside castling with the rook taken from its corner, `End - 2`. */
    method MoveQueenside(move: Move, ghost p: Position)
      requires Playable(p, move) && SpecialOf(move) == Queenside && MoveHalfway(p, move)
      modifies this`Castlings, Squares, Kings, Pieces, PiecesByColour
      ensures MoveDone(p, move)
    {
      var e, fi := End(move), FriendlyColourIndex;
      var friendlyRook := Piece.WithColour(Piece.Rook, ColourToMove);
      var rookStart, rookEnd := e - 2, e + 1;
      WriteTwo(Squares, rookStart, Piece.None, rookEnd, friendlyRook);
      Castlings := DropSide(Castlings, WhiteToMove);
      WriteOne(Kings, fi, e);
      var bits := RookBits(rookEnd, rookStart);
      FlipBoth(friendlyRook, fi, bits, p.pieces, PieceMoves(move), p.byColour, ColourMoves(move, fi));
      MoveQueensideState(p, move, friendlyRook, rookStart, rookEnd, bits, Squares[..], Kings[..], Pieces[..], PiecesByColour[..], Castlings);
    }

    /** A king move takes both rights of its side, a rook move the right of its corner. */
    method MovePlain(move: Move, ghost p: Position)
      requires Playable(p, move) && SpecialOf(move) == Plain && MoveHalfway(p, move)
      modifies this`Castlings, Kings
      ensures MoveDone(p, move)
    {
      assert PieceMoves(move) + [] == PieceMoves(move);
      assert ColourMoves(move, p.friendlyIndex) + [] == ColourMoves(move, p.friendlyIndex);
      MovePlainSquares(p, move, 2);
      if Start(move) == Kings[FriendlyColourIndex] {
        Castlings := DropSide(Castlings, WhiteToMove);
        Kings[FriendlyColourIndex] := End(move);
      } else if Piece.Type(Mover(move)) == Piece.Rook {
        Castlings := DropRight(Castlings, Start(move));
      }
    }

    /** Takes the last move back: the key, castling rights, en-passant square and counters
        come from its history entry, the side to move flips back, the pieces go back where
        `TakeSquares` and the toggles of `Takeback` put them, the entry is popped and the
        attack map recomputed. With no history, returns false and changes nothing. */
    method Takeback() returns (undone: bool)
      requires Valid()
      requires History != [] ==> Undoable(State(), History[|History| - 1])
      modifies this`History, this`PositionKey, this`Castlings, this`EnpassantSquare, this`HalfMoveCount,
        this`FullMoveCount, this`WhiteToMove, this`ColourToMove, this`FriendlyColourIndex, this`OccupiedSquares,
        this`OpponentAttacks, Squares, Kings, Pieces, PiecesByColour
      ensures Valid() && Squares == old(Squares) && Kings == old(Kings)
      ensures Pieces == old(Pieces) && PiecesByColour == old(PiecesByColour)
      ensures undone <==> old(History) != []
      ensures !undone ==> unchanged(this, Squares, Kings, Pieces, PiecesByColour)
      ensures undone ==> var h := old(History[|History| - 1]);
        State() == AfterTakeback(old(State()), h) && PositionKey == h.Key &&
        History == old(History[..|History| - 1])
    {
      if |History| == 0 {
        return false;
      }
      var history := History[|History| - 1];
      ghost var q := State();
      Drop();
      Back(history, q);
      return true;
    }

    /** `History.RemoveAt(History.Count - 1)`. */
    method Drop()
      requires History != []
      modifies this`History
      ensures History == old(History[..|History| - 1])
    {
      History := History[..|History| - 1];
    }

    /** `Takeback` after reading the history entry: the position `AfterTakeback` describes,
        its key and its attack map. */
    method Back(history: BoardHistory, ghost q: Position)
      requires Arrays() && tables.Valid() && keys.Valid() && Undoable(q, history) && Consistent(q) && State() == q
      modifies this`PositionKey, this`Castlings, this`EnpassantSquare, this`HalfMoveCount, this`FullMoveCount,
        this`WhiteToMove, this`ColourToMove, this`FriendlyColourIndex, this`OccupiedSquares, this`OpponentAttacks,
        Squares, Kings, Pieces, PiecesByColour
      ensures Valid() && State() == AfterTakeback(q, history) && PositionKey == history.Key
    {
      Unplay(history, q);
      TakeConsistent(q, history);
      Attack();
    }

    /** `Takeback` from the history entry to the occupied set: the position
        `AfterTakeback` describes, before the attack map. */
    method Unplay(history: BoardHistory, ghost q: Position)
      requires Arrays() && Undoable(q, history) && State() == q
      modifies this`PositionKey, this`Castlings, this`EnpassantSquare, this`HalfMoveCount, this`FullMoveCount,
        this`WhiteToMove, this`ColourToMove, this`FriendlyColourIndex, this`OccupiedSquares,
        Squares, Kings, Pieces, PiecesByColour
      ensures State() == AfterTakeback(q, history) && PositionKey == history.Key
    {
      Restore(history);
      Turn();
      Unmove(history.LastMove, q, history);
      AfterTakebackIs(q, history, State());
    }

    /** `Takeback` on the pieces, with the side to move already flipped back: the board as
        `TakeDone` describes it, and the occupied set. */
    method Unmove(move: Move, ghost q: Position, ghost h: BoardHistory)
      requires Arrays() && Undoable(q, h) && move == h.LastMove
      requires Squares[..] == q.squares && Kings[..] == q.kings && Pieces[..] == q.pieces && PiecesByColour[..] == q.byColour
      requires EnpassantSquare == h.EnpassantSquare && WhiteToMove == !q.whiteToMove
      requires ColourToMove == Piece.OpponentOf(q.colourToMove) && FriendlyColourIndex == ColourToMove / 8
      modifies this`OccupiedSquares, Squares, Kings, Pieces, PiecesByColour
      ensures TakeDone(q, h) && OccupiedSquares == UOr(PiecesByColour[0], PiecesByColour[1])
    {
      TakePieces(move, q, h);
      TakeSpecial(move, q, h);
      OccupiedSquares := UOr(PiecesByColour[0], PiecesByColour[1]);
    }

    /** The key, rights, en-passant square and counters of a history entry. */
    method Restore(history: BoardHistory)
      modifies this`PositionKey, this`Castlings, this`EnpassantSquare, this`HalfMoveCount, this`FullMoveCount
      ensures PositionKey == history.Key && Castlings == history.Castlings
      ensures EnpassantSquare == history.EnpassantSquare
      ensures HalfMoveCount == history.HalfMoveCount && FullMoveCount == history.FullMoveCount
    {
      PositionKey := history.Key;
      Castlings := history.Castlings;
      EnpassantSquare := history.EnpassantSquare;
      HalfMoveCount := history.HalfMoveCount;
      FullMoveCount := history.FullMoveCount;
    }

    /** `Takeback` up to the special moves: the mover goes back to its starting square, the
        captured piece back to the ending square. */
    method TakePieces(move: Move, ghost q: Position, ghost h: BoardHistory)
      requires Arrays() && Undoable(q, h) && move == h.LastMove
      requires Squares[..] == q.squares && Pieces[..] == q.pieces && PiecesByColour[..] == q.byColour
      requires FriendlyColourIndex == Piece.OpponentOf(q.colourToMove) / 8
      modifies Squares, Pieces, PiecesByColour
      ensures Squares[..] == q.squares[Start(move) := Mover(move)][End(move) := Taken(move)]
      ensures Pieces[..] == Apply(q.pieces, PieceMoves(move))
      ensures PiecesByColour[..] == Apply(q.byColour, ColourMoves(move, FriendlyColourIndex))
    {
      WriteTwo(Squares, Start(move), Mover(move), End(move), Taken(move));
      FlipMoved(move, q.pieces, q.byColour);
    }

    /** The board halfway through `Takeback` of entry `h` on `q`: the mover is back on its
        starting square and the captured piece on the ending square. */
    ghost predicate TakeHalfway(q: Position, h: BoardHistory)
      requires Undoable(q, h)
      reads this, Squares, Kings, Pieces, PiecesByColour
    {
      var move := h.LastMove;
      Arrays() &&
      Squares[..] == q.squares[Start(move) := Mover(move)][End(move) := Taken(move)] &&
      Pieces[..] == Apply(q.pieces, PieceMoves(move)) &&
      PiecesByColour[..] == Apply(q.byColour, ColourMoves(move, Piece.OpponentOf(q.colourToMove) / 8)) &&
      Kings[..] == q.kings && EnpassantSquare == h.EnpassantSquare &&
      WhiteToMove == !q.whiteToMove && ColourToMove == Piece.OpponentOf(q.colourToMove) &&
      FriendlyColourIndex == ColourToMove / 8
    }

    /** The pieces and kings as `Takeback` of entry `h` on `q` leaves them. */
    ghost predicate TakeDone(q: Position, h: BoardHistory)
      requires Undoable(q, h)
      reads this, Squares, Kings, Pieces, PiecesByColour
    {
      Squares[..] == TakeSquares(q, h) && Kings[..] == TakeKings(q, h) &&
      Pieces[..] == Apply(q.pieces, TakePieceToggles(q, h)) &&
      PiecesByColour[..] == Apply(q.byColour, TakeColourToggles(q, h))
    }

    /** The branches of `Takeback` for a promotion, an en-passant capture, the two castlings
        and a king move. */
    method TakeSpecial(move: Move, ghost q: Position, ghost h: BoardHistory)
      requires Undoable(q, h) && move == h.LastMove && TakeHalfway(q, h)
      modifies Squares, Kings, Pieces, PiecesByColour
      ensures TakeDone(q, h)
    {
      if move.IsPromotion() {
        TakePromotion(move, q, h);
      } else if move.IsEnpassantCapture() {
        TakeEnpassant(move, q, h);
      } else if move.IsKingsideCastling() {
        TakeKingside(move, q, h);
      } else if move.IsQueensideCastling() {
        TakeQueenside(move, q, h);
      } else {
        TakePlain(move, q, h);
      }
    }

    method TakePromotion(move: Move, ghost q: Position, ghost h: BoardHistory)
      requires Undoable(q, h) && move == h.LastMove && SpecialOf(move) == Promotion && TakeHalfway(q, h)
      modifies Pieces
      ensures TakeDone(q, h)
    {
      var bitboard := SquareBit(End(move));
      ghost var pieceMoves := PieceMoves(move);
      var pawn, promotion := Toggle(Mover(move), bitboard), Toggle(Piece.WithColour(move.PromotionType(), ColourToMove), bitboard);
      Flip(Pieces, pawn, q.pieces, pieceMoves);
      Flip(Pieces, promotion, q.pieces, pieceMoves + [pawn]);
      assert pieceMoves + [pawn] + [promotion] == pieceMoves + [pawn, promotion];
      assert ColourMoves(move, FriendlyColourIndex) + [] == ColourMoves(move, FriendlyColourIndex);
      TakePlainSquares(q, h);
    }

    method TakeEnpassant(move: Move, ghost q: Position, ghost h: BoardHistory)
      requires Undoable(q, h) && move == h.LastMove && SpecialOf(move) == Enpassant && TakeHalfway(q, h)
      modifies Squares, Pieces, PiecesByColour
      ensures TakeDone(q, h)
    {
      var pawnSquare := EnpassantSquare as int + (if WhiteToMove then -8 else 8);
      var opponentPawn := Piece.WithColour(Piece.Pawn, Piece.OpponentOf(ColourToMove));
      Squares[pawnSquare] := opponentPawn;
      FlipBoth(opponentPawn, Piece.OtherIndex(FriendlyColourIndex), SquareBit(pawnSquare),
        q.pieces, PieceMoves(move), q.byColour, ColourMoves(move, FriendlyColourIndex));
      TakeEnpassantSquares(q, h);
    }

    method TakeKingside(move: Move, ghost q: Position, ghost h: BoardHistory)
      requires Undoable(q, h) && move == h.LastMove && SpecialOf(move) == Kingside && TakeHalfway(q, h)
      modifies Squares, Kings, Pieces, PiecesByColour
      ensures TakeDone(q, h)
    {
      var e, fi := End(move), FriendlyColourIndex;
      var friendlyRook := Piece.WithColour(Piece.Rook, ColourToMove);
      var rookEnd, rookStart := e + 1, e - 1;
      WriteTwo(Squares, rookEnd, friendlyRook, rookStart, Piece.None);
      WriteOne(Kings, fi, Start(move));
      var bits := RookBits(rookEnd, rookStart);
      FlipBoth(friendlyRook, fi, bits, q.pieces, PieceMoves(move), q.byColour, ColourMoves(move, fi));
      TakeKingsideState(q, h, fi, friendlyRook, rookStart, rookEnd, bits, Squares[..], Kings[..], Pieces[..], PiecesByColour[..]);
    }

    method TakeQueenside(move: Move, ghost q: Position, ghost h: BoardHistory)
      requires Undoable(q, h) && move == h.LastMove && SpecialOf(move) == Queenside && TakeHalfway(q, h)
      modifies Squares, Kings, Pieces, PiecesByColour
      ensures TakeDone(q, h)
    {
      var e, fi := End(move), FriendlyColourIndex;
      var friendlyRook := Piece.WithColour(Piece.Rook, ColourToMove);
      var rookEnd, rookStart := e - 2, e + 1;
      WriteTwo(Squares, rookEnd, friendlyRook, rookStart, Piece.None);
      WriteOne(Kings, fi, Start(move));
      var bits := RookBits(rookEnd, rookStart);
      FlipBoth(friendlyRook, fi, bits, q.pieces, PieceMoves(move), q.byColour, ColourMoves(move, fi));
      TakeQueensideState(q, h, fi, friendlyRook, rookStart, rookEnd, bits, Squares[..], Kings[..], Pieces[..], PiecesByColour[..]);
    }

    /** A king move puts the king back on its starting square. */
    method TakePlain(move: Move, ghost q: Position, ghost h: BoardHistory)
      requires Undoable(q, h) && move == h.LastMove && SpecialOf(move) == Plain && TakeHalfway(q, h)
      modifies Kings
      ensures TakeDone(q, h)
    {
      assert PieceMoves(move) + [] == PieceMoves(move);
      assert ColourMoves(move, FriendlyColourIndex) + [] == ColourMoves(move, FriendlyColourIndex);
      TakePlainSquares(q, h);
      if End(move) == Kings[FriendlyColourIndex] {
        Kings[FriendlyColourIndex] := Start(move);
      }
    }
  }
}
