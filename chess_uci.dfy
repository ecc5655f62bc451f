// Square and move text in the Universal Chess Interface's long algebraic notation
// (ConsoleApp/Chess/UniversalChessInterface.cs, and the `Uci` property of
// ConsoleApp/Chess/Move.cs).

module UniversalChessInterface {
  import opened CSharp
  import opened ULong
  import Piece
  import opened Moves
  import MoveFlags
  import ChessBoard

  const UpperFiles := "ABCDEFGH"
  const LowerFiles := "abcdefgh"

  /** The square a two-character name stands for, or -1. The text is lower-cased and
      trimmed after its length is checked, so a name with white space in it reads past its
      end, which in C# throws. Any second character is taken as a rank digit. */
  function GetSquareFromUci(uci: string): (r: Outcome<int>)
    ensures r.Returns? ==> -Two31 <= r.value < Two31
    ensures |uci| != 2 ==> r == Returns(-1)
    ensures |uci| == 2 ==>
      var u := Trim(ToLowerString(uci));
      (r.Throws? <==> |u| == 0 || (|u| == 1 && u[0] in LowerFiles)) &&
      (|u| == 1 && u[0] !in LowerFiles ==> r == Returns(-1))
  {
    if |uci| != 2 then Returns(-1)
    else SquareFromText(Trim(ToLowerString(uci)))
  }

  /** The rest of `GetSquareFromUci`, on the lower-cased and trimmed text. The number
      read always fits an `int`. */
  function SquareFromText(u: string): (r: Outcome<int>)
    ensures r.Returns? ==> -Two31 <= r.value < Two31
    ensures r.Throws? <==> |u| == 0 || (|u| == 1 && u[0] in LowerFiles)
  {
    if |u| == 0 then Throws(IndexOutOfRange)
    else if u[0] in LowerFiles then
      if |u| < 2 then Throws(IndexOutOfRange)
      else Returns((u[1] as int - 49) * 8 + IndexOf(LowerFiles, u[0]))
    else Returns(-1)
  }

  /** The name of a square: "-" when bit 6 is set (as for -1), otherwise the file letter
      of the low three bits followed by the rank number. */
  function GetUci(squareIndex: int32): string {
    if And(squareIndex, 64) != 0 then "-"
    else [LowerFiles[FileBits(squareIndex)]] + IntToString(ShiftRight(squareIndex, 3) as int + 1)
  }

  /** `squareIndex & 7`. */
  function FileBits(squareIndex: int32): (f: nat)
    ensures f < 8
  {
    AndSmall(squareIndex, 7);
    And(squareIndex, 7) as int
  }

  /** The text of a move with the promotion letter taken from `GetSymbol` of the bare
      piece type, read under the White = 0 convention: the bare type then counts as white
      and its letter is upper case. */
  function MoveUciBareSymbol(move: Move): string {
    GetUci(move.StartingSquare()) + GetUci(move.EndingSquare()) +
    (if move.IsPromotion() then [Piece.GetSymbol(move.PromotionType())] else "")
  }

  /** The text of a move, with the promotion letter in lower case as the protocol writes it. */
  function MoveUci(move: Move): string {
    GetUci(move.StartingSquare()) + GetUci(move.EndingSquare()) +
    (if move.IsPromotion() then [Piece.LowerPieceSymbols[move.PromotionType()]] else "")
  }

  /** The `foreach` of `Board.MakeMove(string)`: the index of the first move whose text is
      `uci`, or the length of the list when there is none. */
  method FirstNamed(moves: seq<Move>, uci: string) returns (i: int)
    ensures 0 <= i <= |moves|
    ensures forall k | 0 <= k < i :: MoveUci(moves[k]) != uci
    ensures i < |moves| ==> MoveUci(moves[i]) == uci
  {
    i := FirstWith(moves, MoveUci, uci);
  }

  /** The index of the first entry whose `name` is `text`, or the length when there is none. */
  method FirstWith<T>(xs: seq<T>, name: T -> string, text: string) returns (i: int)
    ensures 0 <= i <= |xs|
    ensures forall k | 0 <= k < i :: name(xs[k]) != text
    ensures i < |xs| ==> name(xs[i]) == text
  {
    i := 0;
    while i < |xs| && name(xs[i]) != text
      invariant 0 <= i <= |xs|
      invariant forall k | 0 <= k < i :: name(xs[k]) != text
    {
      i := i + 1;
    }
  }

  // ------------------------------------------------------------ squares

  /** The name of square `sq` is the letter of its file and the digit of its rank. */
  lemma SquareName(sq: int32)
    requires 0 <= sq < 64
    ensures GetUci(sq) == [LowerFiles[sq % 8], DigitChar(sq as int / 8 + 1)]
  {
    assert Pow2(6) == 64 && Pow2(3) == 8;
    forall k: nat
      ensures BitOf(AndBits(sq as int, 64), k) == BitOf(0, k)
    {
      AndBitAt(sq as int, 64, k);
      BitOfPow2(6, k);
      if k >= 6 {
        BitOfHigh(sq as int, 6, k);
      }
      ZeroBits(k);
    }
    BitsEqual(AndBits(sq as int, 64), 0);
    LowMask(sq as int, 3);
    AndBitsBound(sq as int, 64);
    AndBitsBound(sq as int, 7);
  }

  /** `SquareName`, for a name given in full. */
  lemma NamedSquare(sq: int32, f: nat, r: nat, name: string)
    requires f < 8 && r < 8 && sq as int == 8 * r + f
    requires name == [LowerFiles[f], DigitChar(r + 1)]
    ensures GetUci(sq) == name
  {
    SquareName(sq);
    DivUnique(sq as int, 8, r, f);
  }

  /** Every square's name is a letter from a to h followed by a digit from 1 to 8. */
  lemma SquareNameShape(sq: int32)
    requires 0 <= sq < 64
    ensures |GetUci(sq)| == 2 && 'a' <= GetUci(sq)[0] <= 'h' && '1' <= GetUci(sq)[1] <= '8'
  {
    SquareName(sq);
  }

  /** Squares with bit 6 set, -1 among them, have the name "-". */
  lemma NoSquareName(sq: int32)
    requires BitOf(Pattern(sq), 6)
    ensures GetUci(sq) == "-"
  {
    AndBitAt(Pattern(sq), 64, 6);
    BitOfPow2(6, 6);
    assert Pow2(6) == 64;
    ZeroBits(6);
  }

  lemma MinusOneName()
    ensures GetUci(-1) == "-"
  {
    Pow32();
    BitOfLowMask(32, 6);
    NoSquareName(-1);
  }

  /** Lower-casing and trimming leave a two-character name of non-blank characters as
      the two characters lower-cased. */
  lemma LowerTrimmed(uci: string)
    requires |uci| == 2 && !IsWhiteSpace(uci[0]) && !IsWhiteSpace(uci[1])
    ensures Trim(ToLowerString(uci)) == [ToLower(uci[0]), ToLower(uci[1])]
  {
    var l := ToLowerString(uci);
    assert l == [ToLower(uci[0]), ToLower(uci[1])];
    LowerNotBlank(uci[0]);
    LowerNotBlank(uci[1]);
    TrimNoBlank(l);
  }

  /** A two-character name made of a file letter (either case) and a rank digit reads as
      its square; a name of another length, or a name of two non-blank characters whose first
      is no file letter, reads as -1. */
  lemma ReadSquare(uci: string)
    ensures |uci| != 2 ==> GetSquareFromUci(uci).Returns? && GetSquareFromUci(uci).value == -1
    ensures |uci| == 2 && !IsWhiteSpace(uci[0]) && !IsWhiteSpace(uci[1]) ==>
      GetSquareFromUci(uci).Returns? &&
      GetSquareFromUci(uci).value ==
        if ToLower(uci[0]) in LowerFiles
        then (ToLower(uci[1]) as int - 49) * 8 + IndexOf(LowerFiles, ToLower(uci[0]))
        else -1
  {
    if |uci| == 2 && !IsWhiteSpace(uci[0]) && !IsWhiteSpace(uci[1]) {
      ReadTwo(uci);
      ReadText(ToLower(uci[0]), ToLower(uci[1]));
    }
  }

  /** A file letter followed by a no-break space trims to the lone letter, whose missing
      rank digit throws. */
  lemma NoBreakSpaceThrows()
    ensures GetSquareFromUci(['a', '\U{00A0}']) == Throws(IndexOutOfRange)
  {
    var u := ToLowerString(['a', '\U{00A0}']);
    assert u == ['a', '\U{00A0}'];
    assert TrimStart(u, IsWhiteSpace) == u;
    assert u[..1] == ['a'];
    assert TrimEnd(u, IsWhiteSpace) == ['a'];
    assert 'a' in LowerFiles;
  }

  lemma ReadTwo(uci: string)
    requires |uci| == 2 && !IsWhiteSpace(uci[0]) && !IsWhiteSpace(uci[1])
    ensures GetSquareFromUci(uci) == SquareFromText([ToLower(uci[0]), ToLower(uci[1])])
  {
    LowerTrimmed(uci);
  }

  /** `SquareFromText` on two characters. */
  lemma ReadText(c: char, d: char)
    ensures SquareFromText([c, d]).Returns?
    ensures SquareFromText([c, d]).value ==
      if c in LowerFiles then (d as int - 49) * 8 + IndexOf(LowerFiles, c) else -1
  {
    var u := [c, d];
    assert |u| == 2 && u[0] == c && u[1] == d;
  }

  /** The file letters are distinct lower-case letters. */
  lemma FileLetter(f: nat)
    requires f < 8
    ensures IndexOf(LowerFiles, LowerFiles[f]) == f
    ensures ToLower(LowerFiles[f]) == LowerFiles[f] && !IsWhiteSpace(LowerFiles[f])
  {
    FileCodes();
    var r := IndexOf(LowerFiles, LowerFiles[f]);
    assert r >= 0 && LowerFiles[r] == LowerFiles[f];
  }

  /** The file letters are `a` to `h` in order. */
  lemma FileCodes()
    ensures forall i | 0 <= i < 8 :: LowerFiles[i] as int == 97 + i
  {
    assert LowerFiles == ['a', 'b', 'c', 'd', 'e', 'f', 'g', 'h'];
  }

  /** The name made of file letter `f` and rank digit `r + 1` reads as square `8 * r + f`. */
  lemma ReadName(name: string, f: nat, r: nat)
    requires f < 8 && r < 8 && name == [LowerFiles[f], DigitChar(r + 1)]
    ensures GetSquareFromUci(name).Returns? && GetSquareFromUci(name).value == 8 * r + f
  {
    FileLetter(f);
    var c, d := LowerFiles[f], DigitChar(r + 1);
    assert '1' <= d <= '8' && d as int - 49 == r && ToLower(d) == d;
    assert name[0] == c && name[1] == d;
    ReadTwo(name);
    ReadText(c, d);
    assert c in LowerFiles;
  }

  /** Reading the name of a square gives the square back. */
  lemma SquareRoundTrip(sq: int32)
    requires 0 <= sq < 64
    ensures GetSquareFromUci(GetUci(sq)).Returns? && GetSquareFromUci(GetUci(sq)).value == sq as int
  {
    SquareName(sq);
    ReadName(GetUci(sq), sq as int % 8, sq as int / 8);
  }

  /** Printing the square a file letter and a rank digit name gives the name back. */
  lemma NameRoundTrip(file: char, rank: char)
    requires file in LowerFiles && '1' <= rank <= '8'
    ensures GetSquareFromUci([file, rank]).Returns?
    ensures var sq := GetSquareFromUci([file, rank]).value;
      0 <= sq < 64 && GetUci(sq as int32) == [file, rank]
  {
    var f := IndexOf(LowerFiles, file);
    var r := rank as int - 49;
    var name := [file, rank];
    assert name == [LowerFiles[f], DigitChar(r + 1)];
    ReadName(name, f, r);
    var sq := GetSquareFromUci(name).value;
    NamedSquare(sq as int32, f, r, name);
  }

  // ------------------------------------------------------------ moves

  /** The text of a move is the names of its two squares, then one lower-case letter for a
      promotion; for a promotion flag that is one of the four, the letter reads back as the
      promotion piece. */
  lemma MoveText(move: Move)
    ensures |MoveUci(move)| == (if move.IsPromotion() then 5 else 4)
    ensures MoveUci(move)[..2] == GetUci(move.StartingSquare())
    ensures MoveUci(move)[2..4] == GetUci(move.EndingSquare())
    ensures move.IsPromotion() ==> IsLower(MoveUci(move)[4]) || MoveUci(move)[4] == '_'
    ensures move.PromotionType() != Piece.None ==>
      MoveUci(move)[4] in "nbrq" && Piece.GetPieceType(MoveUci(move)[4]) == move.PromotionType()
  {
    AndSmall(move.From, 63);
    AndSmall(move.To, 63);
    SquareNameShape(move.StartingSquare());
    SquareNameShape(move.EndingSquare());
    var t := move.PromotionType();
    if move.IsPromotion() {
      assert t == 0 || t == 3 || t == 5 || t == 6 || t == 7;
      var c := Piece.LowerPieceSymbols[t];
      if t != Piece.None {
        Piece.FirstLetters(t);
      }
    }
    Moves.PromotionFlags(move);
  }

  /** Under the White = 0 convention, taking the promotion letter from `GetSymbol` of the
      bare type would print "e7e8Q"; `MoveUci` prints the lower-case "e7e8q" that the
      protocol and Move.cs (with its own White = 8) intend. */
  lemma BareSymbolUpperCase(m: Move)
    requires m.StartingSquare() == 52 && m.EndingSquare() == 60 && m.Flag == MoveFlags.PromotionQueen
    ensures MoveUciBareSymbol(m) == "e7e8Q"
    ensures MoveUci(m) == "e7e8q"
  {
    NamedSquare(m.StartingSquare(), 4, 6, "e7");
    NamedSquare(m.EndingSquare(), 4, 7, "e8");
    Moves.PromotionFlags(m);
    assert m.IsPromotion() && m.PromotionType() == Piece.Queen;
    Piece.SymbolOf(7);
    assert Piece.GetSymbol(Piece.Queen) == 'Q';
  }

  /** Such a move exists: the one the constructor builds from e7, e8 and the queen flag. */
  lemma QueenPromotionMove()
    ensures var m := NewMove(52, 60, 1, 0, MoveFlags.PromotionQueen);
      m.StartingSquare() == 52 && m.EndingSquare() == 60 && m.Flag == MoveFlags.PromotionQueen
  {
    PackRoundTrip(52, 60, 1, 0, MoveFlags.PromotionQueen);
  }

  // ------------------------------------------------------- reading a move

  /** `(square & 64) != 0`: the test `GetMoveFromUci` uses to turn away a name that is no
      square. It holds for -1 and for 64 to 127, but not for every number off the board. */
  predicate OffBoardBit(square: int)
    requires -Two31 <= square < Two31
  {
    And(square as int32, 64) != 0
  }

  /** `GetMoveFromUci(board, uci)`, on the position the board holds: the move the text
      names, with the moving and the captured piece read from the mailbox and the flag
      guessed from the squares (a king two files sideways castles, a pawn onto the
      en-passant square captures en passant, a pawn two ranks forward double-pushes) or
      read from the promotion letter. Text shorter than four characters, a name that is
      turned away, or text longer than five characters gives `default(Move)`. Reading a
      name, or the mailbox at a number the test let through, may throw. */
  function GetMoveFromUci(p: ChessBoard.Position, uci: string): (r: Outcome<Move>)
    requires ChessBoard.Shaped(p)
  {
    if |uci| < 4 then Returns(Default)
    else MoveFromNames(p, uci, GetSquareFromUci(uci[0..2]), GetSquareFromUci(uci[2..4]), false)
  }

  /** The same with the test the names evidently call for: both numbers must be squares. */
  function GetMoveFromUciChecked(p: ChessBoard.Position, uci: string): (r: Outcome<Move>)
    requires ChessBoard.Shaped(p)
  {
    if |uci| < 4 then Returns(Default)
    else MoveFromNames(p, uci, GetSquareFromUci(uci[0..2]), GetSquareFromUci(uci[2..4]), true)
  }

  /** `GetMoveFromUci` once the two names `first` and `second` are read: an exception in
      either is passed on; a number the test turns away gives `default(Move)`. The test is
      bit 6 as written, or both numbers being squares when `checked`. */
  function MoveFromNames(p: ChessBoard.Position, uci: string, first: Outcome<int>, second: Outcome<int>,
    checked: bool): (r: Outcome<Move>)
    requires ChessBoard.Shaped(p) && |uci| >= 4
    requires first.Returns? ==> -Two31 <= first.value < Two31
    requires second.Returns? ==> -Two31 <= second.value < Two31
  {
    match first
    case Throws(error) => Throws(error)
    case Returns(s) =>
      match second
      case Throws(error) => Throws(error)
      case Returns(e) =>
        var turnedAway := if checked then !(0 <= s < 64) || !(0 <= e < 64) else OffBoardBit(s) || OffBoardBit(e);
        if turnedAway then Returns(Default) else MoveFromSquares(p, uci, s, e)
  }

  /** The rest of `GetMoveFromUci` once both names are read: four characters build a
      move with the guessed flag, five a move with the promotion flag of the letter (none
      for another letter), more give `default(Move)`. The mailbox is read at both numbers,
      which throws when one of them is off the board. */
  function MoveFromSquares(p: ChessBoard.Position, uci: string, s: int, e: int): (r: Outcome<Move>)
    requires ChessBoard.Shaped(p) && |uci| >= 4
  {
    if |uci| > 5 then Returns(Default)
    else if !(0 <= s < 64 && 0 <= e < 64) then Throws(IndexOutOfRange)
    else
      var flag := if |uci| == 4 then GuessedFlag(p, s, e) else Piece.GetPromotionFlag(Piece.GetPieceType(uci[4])) as byte;
      Returns(NewMove(s as int32, e as int32, p.squares[s] as int32, p.squares[e] as int32, flag))
  }

  /** The flag of a four-character move: queenside castling for the king two files to the
      left, kingside castling two files to the right, an en-passant capture for a pawn onto
      the en-passant square, a double push for a pawn moving 16 squares, no flag otherwise. */
  function GuessedFlag(p: ChessBoard.Position, s: int, e: int): (flag: byte)
    requires ChessBoard.Shaped(p) && 0 <= s < 64
  {
    var king := p.kings[p.friendlyIndex];
    if s == king && king - e == 2 then MoveFlags.QueensideCastling
    else if s == king && king - e == -2 then MoveFlags.KingsideCastling
    else if Piece.IsType(p.squares[s], Piece.Pawn) then
      if e == p.enpassant as int then MoveFlags.EnpassantCapture
      else if Abs(s - e) == 16 then MoveFlags.DoublePawnPush
      else MoveFlags.None
    else MoveFlags.None
  }

  /** A square's bit 6 is clear, so the test lets it through. */
  lemma OnBoardBitClear(sq: int)
    requires 0 <= sq < 64
    ensures !OffBoardBit(sq)
  {
    SquareName(sq as int32);
  }

  /** The text of a move between two squares with no promotion flag reads back as that
      move exactly when its flag is the one the reader guesses from the squares. */
  lemma UciReadsMove(p: ChessBoard.Position, s: int, e: int, flag: byte)
    requires ChessBoard.Shaped(p) && 0 <= s < 64 && 0 <= e < 64
    requires flag in {MoveFlags.None, MoveFlags.DoublePawnPush, MoveFlags.EnpassantCapture,
                      MoveFlags.QueensideCastling, MoveFlags.KingsideCastling}
    ensures var m := NewMove(s as int32, e as int32, p.squares[s] as int32, p.squares[e] as int32, flag);
      GetMoveFromUci(p, MoveUci(m)) == Returns(m) <==> flag == GuessedFlag(p, s, e)
  {
    var m := NewMove(s as int32, e as int32, p.squares[s] as int32, p.squares[e] as int32, flag);
    Names(p, s, e, flag);
    Moves.PromotionFlags(m);
    assert !m.IsPromotion();
    MoveText(m);
    FourCharacters(p, MoveUci(m), s, e);
    FlagDecides(s as int32, e as int32, p.squares[s] as int32, p.squares[e] as int32, flag, GuessedFlag(p, s, e));
  }

  /** Four characters naming two squares read as the move between them with the guessed flag. */
  lemma FourCharacters(p: ChessBoard.Position, text: string, s: int, e: int)
    requires ChessBoard.Shaped(p) && |text| == 4 && 0 <= s < 64 && 0 <= e < 64
    requires GetSquareFromUci(text[0..2]) == Returns(s) && GetSquareFromUci(text[2..4]) == Returns(e)
    requires !OffBoardBit(s) && !OffBoardBit(e)
    ensures GetMoveFromUci(p, text) ==
      Returns(NewMove(s as int32, e as int32, p.squares[s] as int32, p.squares[e] as int32, GuessedFlag(p, s, e)))
  {
  }

  /** Two moves built from the same squares and pieces are equal exactly when their flags are. */
  lemma FlagDecides(s: int32, e: int32, friendly: int32, opponent: int32, f: byte, g: byte)
    ensures NewMove(s, e, friendly, opponent, f) == NewMove(s, e, friendly, opponent, g) <==> f == g
  {
  }

  /** The text of a promotion between two squares always reads back as that move. */
  lemma UciReadsPromotion(p: ChessBoard.Position, s: int, e: int, flag: byte)
    requires ChessBoard.Shaped(p) && 0 <= s < 64 && 0 <= e < 64
    requires flag in {MoveFlags.PromotionKnight, MoveFlags.PromotionBishop, MoveFlags.PromotionRook, MoveFlags.PromotionQueen}
    ensures var m := NewMove(s as int32, e as int32, p.squares[s] as int32, p.squares[e] as int32, flag);
      GetMoveFromUci(p, MoveUci(m)) == Returns(m)
  {
    var m := NewMove(s as int32, e as int32, p.squares[s] as int32, p.squares[e] as int32, flag);
    Names(p, s, e, flag);
    Moves.PromotionFlags(m);
    MoveText(m);
    Piece.PromotionRoundTrip(flag as int);
    assert GetMoveFromUci(p, MoveUci(m)) == MoveFromSquares(p, MoveUci(m), s, e);
  }

  /** The two names in the text of a move between two squares read back as the squares. */
  lemma Names(p: ChessBoard.Position, s: int, e: int, flag: byte)
    requires ChessBoard.Shaped(p) && 0 <= s < 64 && 0 <= e < 64
    ensures var m := NewMove(s as int32, e as int32, p.squares[s] as int32, p.squares[e] as int32, flag);
      var text := MoveUci(m);
      |text| >= 4 && m.Flag == flag &&
      GetSquareFromUci(text[0..2]) == Returns(s) && GetSquareFromUci(text[2..4]) == Returns(e) &&
      !OffBoardBit(s) && !OffBoardBit(e)
  {
    var m := NewMove(s as int32, e as int32, p.squares[s] as int32, p.squares[e] as int32, flag);
    PackRoundTrip(s as int32, e as int32, p.squares[s] as int32, p.squares[e] as int32, flag);
    MoveText(m);
    SquareRoundTrip(s as int32);
    SquareRoundTrip(e as int32);
    OnBoardBitClear(s);
    OnBoardBitClear(e);
  }

  /** The test lets through numbers off the board: "aa" reads as 384, whose bit 6 is clear,
      so `GetMoveFromUci` reads the mailbox at 384 and throws. */
  lemma OffBoardNameThrows(p: ChessBoard.Position, uci: string)
    requires ChessBoard.Shaped(p) && uci == "aab1"
    ensures GetSquareFromUci(uci[0..2]) == Returns(384)
    ensures GetMoveFromUci(p, uci) == Throws(IndexOutOfRange)
  {
    assert uci[0..2] == "aa" && uci[2..4] == "b1";
    NameAa(uci[0..2]);
    NameB1(uci[2..4]);
    Bit6Clear384();
    NameOffBoard(p, uci, 384, 1);
  }

  lemma NameAa(name: string)
    requires name == "aa"
    ensures GetSquareFromUci(name) == Returns(384)
  {
    assert name == ['a', 'a'];
    ReadTwo(name);
    ReadText('a', 'a');
  }

  lemma NameB1(name: string)
    requires name == "b1"
    ensures GetSquareFromUci(name) == Returns(1)
  {
    assert name == [LowerFiles[1], DigitChar(1)];
    ReadName(name, 1, 0);
  }

  /** Two names the bit-6 test lets through, the first off the board: reading throws. */
  lemma NameOffBoard(p: ChessBoard.Position, uci: string, s: int, e: int)
    requires ChessBoard.Shaped(p) && |uci| == 4 && 64 <= s < Two31 && 0 <= e < 64
    requires GetSquareFromUci(uci[0..2]) == Returns(s) && GetSquareFromUci(uci[2..4]) == Returns(e)
    requires !OffBoardBit(s) && !OffBoardBit(e)
    ensures GetMoveFromUci(p, uci) == Throws(IndexOutOfRange)
  {
  }

  /** `384 & 64 == 0`. */
  lemma Bit6Clear384()
    ensures !OffBoardBit(384)
  {
    assert AndBits(1, 0) == 0;
    assert AndBits(3, 0) == 0;
    assert AndBits(6, 1) == 0;
    assert AndBits(12, 2) == 0;
    assert AndBits(24, 4) == 0;
    assert AndBits(48, 8) == 0;
    assert AndBits(96, 16) == 0;
    assert AndBits(192, 32) == 0;
    assert AndBits(384, 64) == 0;
    assert Pattern(And(384, 64)) == 0;
  }

  /** With the corrected test the mailbox is only read at squares: every exception comes
      from reading a name. */
  lemma CheckedOnlyNamesThrow(p: ChessBoard.Position, uci: string)
    requires ChessBoard.Shaped(p)
    ensures GetMoveFromUciChecked(p, uci).Throws? ==>
      |uci| >= 4 && (GetSquareFromUci(uci[0..2]).Throws? || GetSquareFromUci(uci[2..4]).Throws?)
  {
    if |uci| >= 4 {
      NamesOnlyThrow(p, uci, GetSquareFromUci(uci[0..2]), GetSquareFromUci(uci[2..4]));
    }
  }

  /** With the corrected test, reading the rest after two names throws only when one of
      the names threw. */
  lemma NamesOnlyThrow(p: ChessBoard.Position, uci: string, first: Outcome<int>, second: Outcome<int>)
    requires ChessBoard.Shaped(p) && |uci| >= 4
    requires first.Returns? ==> -Two31 <= first.value < Two31
    requires second.Returns? ==> -Two31 <= second.value < Two31
    ensures MoveFromNames(p, uci, first, second, true).Throws? ==> first.Throws? || second.Throws?
  {
  }
}
