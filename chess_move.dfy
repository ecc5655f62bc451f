// The packed move of the chess engine (ConsoleApp/Chess/Move.cs).
//
// A move is three numbers: `From` holds the starting square in bits 0-5 and the moving
// piece in bits 6-10, `To` the target square and the piece standing there, and `Flag`
// one of the MoveFlags values.

module Moves {
  import opened CSharp
  import opened ULong
  import Piece
  import MoveFlags

  /** C#'s `byte`. */
  type byte = x: int | 0 <= x < 256

  const SquareMask: int32 := 0x3F
  const PieceMask: int32 := 0x7C0
  const ColourMask: int32 := 0x600

  datatype Move = Move(From: int32, To: int32, Flag: byte)
  {
    function StartingSquare(): int32 {
      And(From, SquareMask)
    }

    function EndingSquare(): int32 {
      And(To, SquareMask)
    }

    function FriendlyPiece(): int32 {
      ShiftRight(And(From, PieceMask), 6)
    }

    function OpponentPiece(): int32 {
      ShiftRight(And(To, PieceMask), 6)
    }

    function FriendlyColour(): int32 {
      ShiftRight(And(From, ColourMask), 6)
    }

    function OpponentColour(): int32 {
      Xor(FriendlyColour(), ShiftRight(ColourMask, 6))
    }

    predicate IsPromotion() {
      AndBits(Flag, 15) > 0
    }

    predicate IsCastling() {
      AndBits(Flag, 192) > 0
    }

    predicate IsQueensideCastling() {
      Flag == MoveFlags.QueensideCastling
    }

    predicate IsKingsideCastling() {
      Flag == MoveFlags.KingsideCastling
    }

    predicate IsDoublePawnPush() {
      Flag == MoveFlags.DoublePawnPush
    }

    predicate IsEnpassant() {
      Flag == MoveFlags.EnpassantCapture
    }

    /** The same switch as `Piece.GetPromotionType`, applied to the move's flag. */
    function PromotionType(): int {
      Piece.GetPromotionType(Flag)
    }

    function CastlingRookSquare(): int {
      if Flag == MoveFlags.QueensideCastling then (if FriendlyColour() as int == Piece.White then 0 else 56)
      else if Flag == MoveFlags.KingsideCastling then (if FriendlyColour() as int == Piece.White then 7 else 63)
      else -1
    }

    // The board reads three more properties that the struct does not declare; they are
    // given the meaning their uses there need.

    /** A capture: the target square held a piece. */
    predicate IsCapture() {
      !Piece.IsEmpty(Pattern(OpponentPiece()))
    }

    /** A move that advances the half-move clock: neither a capture nor a pawn move. */
    predicate IsHalfmove() {
      !IsCapture() && Piece.Type(Pattern(FriendlyPiece())) != Piece.Pawn
    }

    predicate IsEnpassantCapture() {
      IsEnpassant()
    }
  }

  /** `default(Move)`: every field zero. */
  const Default := Move(0, 0, 0)

  /** The constructor: the piece goes above the square, six bits up. */
  function NewMove(startingSquare: int32, targetSquare: int32, friendlyPiece: int32, opponentPiece: int32, flag: byte): Move {
    Move(Or(ShiftLeft(friendlyPiece, 6), startingSquare), Or(ShiftLeft(opponentPiece, 6), targetSquare), flag)
  }

  /** The four-argument constructor: a move with no flag. */
  function NewQuietMove(startingSquare: int32, targetSquare: int32, friendlyPiece: int32, opponentPiece: int32): (m: Move)
    ensures m.Flag == MoveFlags.None
    ensures !m.IsPromotion() && !m.IsCastling() && !m.IsDoublePawnPush() && !m.IsEnpassant()
  {
    ZeroAnd(15);
    ZeroAnd(192);
    NewMove(startingSquare, targetSquare, friendlyPiece, opponentPiece, MoveFlags.None)
  }

  lemma ZeroAnd(m: nat)
    ensures AndBits(0, m) == 0
  {
    AndBitsBound(0, m);
  }

  // ------------------------------------------------------------ packing

  /** A piece below 32 shifted over a square below 64 packs into the number
      `64 * piece + square`. */
  lemma {:induction false} Pack(piece: int32, square: int32)
    requires 0 <= piece < 32 && 0 <= square < 64
    ensures Or(ShiftLeft(piece, 6), square) as int == 64 * piece as int + square as int
  {
    assert Pow2(6) == 64;
    var shifted := ShiftLeft(piece, 6);
    ShiftSmall(piece, shifted);
    OrConcat(piece as int, 6, square as int);
    var r := Or(shifted, square);
    PatternSmall(r, 64 * piece as int + square as int);
  }

  /** `piece << 6` for a piece below 32 does not wrap. */
  lemma ShiftSmall(piece: int32, shifted: int32)
    requires 0 <= piece < 32 && shifted == ShiftLeft(piece, 6)
    ensures shifted as int == piece as int * Pow2(6) && Pattern(shifted) == 64 * piece as int
  {
    assert Pow2(6) == 64;
    assert 6 % 32 == 6;
  }

  /** A bit pattern below 2^31 is the number itself. */
  lemma PatternSmall(r: int32, u: nat)
    requires Pattern(r) == u < Two31
    ensures r as int == u
  {
  }

  /** `&` of two non-negative ints is the and of their digits. */
  lemma AndNonNegative(x: int32, y: int32)
    requires 0 <= x && 0 <= y
    ensures And(x, y) as int == AndBits(x as int, y as int)
  {
    AndBitsBound(x as int, y as int);
  }

  /** The fields of a packed number `64 * piece + square`, read back through the masks. */
  lemma Unpack(x: int32, piece: nat, square: nat)
    requires piece < 32 && square < 64 && x as int == 64 * piece + square
    ensures And(x, SquareMask) as int == square
    ensures ShiftRight(And(x, PieceMask), 6) as int == piece
    ensures ShiftRight(And(x, ColourMask), 6) as int == Piece.Colour(piece)
  {
    UnpackSquare(x as int, piece, square);
    AndNonNegative(x, SquareMask);
    UnpackPiece(x as int, piece, square);
    AndNonNegative(x, PieceMask);
    ShiftSix(And(x, PieceMask), piece);
    UnpackColour(x as int, piece, square);
    AndNonNegative(x, ColourMask);
    ShiftSix(And(x, ColourMask), Piece.Colour(piece));
  }

  /** `>> 6` undoes a multiplication by 64. */
  lemma ShiftSix(v: int32, w: nat)
    requires v as int == 64 * w
    ensures ShiftRight(v, 6) as int == w
  {
    assert Pow2(6) == 64;
    DivUnique(64 * w, 64, w, 0);
  }

  lemma UnpackSquare(u: nat, piece: nat, square: nat)
    requires square < 64 && u == 64 * piece + square
    ensures AndBits(u, 63) == square
  {
    assert Pow2(6) == 64;
    LowMask(u, 6);
    DivUnique(u, 64, piece, square);
  }

  lemma UnpackPiece(u: nat, piece: nat, square: nat)
    requires piece < 32 && square < 64 && u == 64 * piece + square
    ensures AndBits(u, 0x7C0) == 64 * piece
  {
    assert Pow2(6) == 64 && Pow2(11) == 2048;
    BandMask(u, 6, 11);
    DivUnique(u, 2048, 0, u);
    DivUnique(u, 64, piece, square);
  }

  lemma UnpackColour(u: nat, piece: nat, square: nat)
    requires piece < 32 && square < 64 && u == 64 * piece + square
    ensures AndBits(u, 0x600) == 64 * Piece.Colour(piece)
  {
    var c, r := piece / 8, piece % 8;
    DivUnique(piece, 8, c, r);
    assert u == 512 * c + (64 * r + square);
    DivUnique(u, 512, c, 64 * r + square);
    DivUnique(u, 2048, 0, u);
    assert Pow2(9) == 512 && Pow2(11) == 2048;
    BandMask(u, 9, 11);
    assert u % Pow2(11) == u;
    assert u % Pow2(11) / Pow2(9) == c;
    assert AndBits(u, 0x600) == c * Pow2(9);
    Piece.ColourIsMiddleBits(piece);
    DivUnique(piece, 32, 0, piece);
    assert Piece.Colour(piece) == 8 * c;
  }

  /** Every field put into a move comes back out of it: the squares below 64, the pieces
      below 32 and the flag; the friendly colour is the mover's colour bits. */
  lemma PackRoundTrip(startingSquare: int32, targetSquare: int32, friendlyPiece: int32, opponentPiece: int32, flag: byte)
    requires 0 <= startingSquare < 64 && 0 <= targetSquare < 64
    requires 0 <= friendlyPiece < 32 && 0 <= opponentPiece < 32
    ensures var m := NewMove(startingSquare, targetSquare, friendlyPiece, opponentPiece, flag);
      m.StartingSquare() == startingSquare && m.EndingSquare() == targetSquare &&
      m.FriendlyPiece() == friendlyPiece && m.OpponentPiece() == opponentPiece &&
      m.FriendlyColour() as int == Piece.Colour(friendlyPiece as int) && m.Flag == flag
  {
    Pack(friendlyPiece, startingSquare);
    Pack(opponentPiece, targetSquare);
    var m := NewMove(startingSquare, targetSquare, friendlyPiece, opponentPiece, flag);
    Unpack(m.From, friendlyPiece as int, startingSquare as int);
    Unpack(m.To, opponentPiece as int, targetSquare as int);
  }

  /** The opponent colour flips both colour bits of the friendly colour, so applying it
      twice gives the friendly colour back. */
  lemma OpponentColourFlips(m: Move)
    requires 0 <= m.From
    ensures m.FriendlyColour() as int in {0, 8, 16, 24}
    ensures m.OpponentColour() as int == 24 - m.FriendlyColour() as int
  {
    var c := ColourField(m);
    assert Pattern(ShiftRight(ColourMask, 6)) == 24;
    XorColour(c);
  }

  /** The colour bits of a packed square: a multiple of 8 below 32. */
  lemma ColourField(m: Move) returns (c: nat)
    requires 0 <= m.From
    ensures c < 4 && m.FriendlyColour() as int == 8 * c
  {
    var u := m.From as int;
    assert Pow2(9) == 512 && Pow2(11) == 2048;
    BandMask(u, 9, 11);
    AndNonNegative(m.From, ColourMask);
    c := u % 2048 / 512;
    assert And(m.From, ColourMask) as int == 512 * c;
    ShiftSix(And(m.From, ColourMask), 8 * c);
  }

  lemma XorColour(c: nat)
    requires c < 4
    ensures XorBits(8 * c, 24) == 24 - 8 * c
  {
    assert Pow2(2) == 4;
    XorBitsLowMask(c, 2);
    var x1 := XorBits(c, 3);
    XorDouble(c, 3);
    var x2 := XorBits(2 * c, 6);
    assert x2 == 2 * x1;
    XorDouble(2 * c, 6);
    assert 2 * (2 * c) == 4 * c;
    var x4 := XorBits(4 * c, 12);
    assert x4 == 2 * x2;
    XorDouble(4 * c, 12);
    assert 2 * (4 * c) == 8 * c;
    assert XorBits(8 * c, 24) == 2 * x4;
  }

  /** Doubling both operands doubles their exclusive or. */
  lemma XorDouble(a: nat, b: nat)
    ensures XorBits(2 * a, 2 * b) == 2 * XorBits(a, b)
  {
    if a != 0 || b != 0 {
      assert (2 * a) / 2 == a && (2 * b) / 2 == b && (2 * a) % 2 == 0 && (2 * b) % 2 == 0;
    }
  }

  // ------------------------------------------------------------ flags

  /** A move is a promotion exactly when one of the four low flag bits is set; the four
      promotion flags are promotions with their piece type, and no other single flag is. */
  lemma PromotionFlags(m: Move)
    ensures m.IsPromotion() <==> exists k :: 0 <= k < 4 && BitOf(m.Flag, k)
    ensures m.IsPromotion() <==> m.Flag % 16 != 0
    ensures m.PromotionType() != Piece.None ==> m.IsPromotion()
    ensures m.Flag in MoveFlags.MoveFlagList ==> (m.IsPromotion() <==> m.PromotionType() != Piece.None)
  {
    PromotionLowBits(m.Flag);
    LowBitsSet(m.Flag);
  }

  /** `flag & 15` is the flag modulo 16. */
  lemma PromotionLowBits(flag: nat)
    ensures AndBits(flag, 15) == flag % 16
  {
    assert Pow2(4) == 16;
    LowMask(flag, 4);
  }

  /** The flag modulo 16 is non-zero exactly when one of the four low bits is set. */
  lemma LowBitsSet(flag: nat)
    ensures flag % 16 != 0 <==> exists k :: 0 <= k < 4 && BitOf(flag, k)
  {
    assert Pow2(4) == 16;
    if flag % 16 != 0 {
      var k := LowestSetBit(flag % 16);
      BitOfMod(flag, 4, k);
    } else {
      forall k | 0 <= k < 4
        ensures !BitOf(flag, k)
      {
        BitOfMod(flag, 4, k);
        ZeroBits(k);
      }
    }
  }

  /** The position of some set bit of a positive number below 16. */
  lemma LowestSetBit(u: nat) returns (k: nat)
    requires 0 < u < 16
    ensures k < 4 && BitOf(u, k)
  {
    if u % 2 == 1 { k := 0; }
    else if u / 2 % 2 == 1 { k := 1; }
    else if u / 4 % 2 == 1 { k := 2; }
    else { k := 3; }
  }

  /** A move is castling exactly when one of the two high flag bits is set; of the single
      flags only the two castling ones are. */
  lemma CastlingFlags(m: Move)
    ensures m.IsCastling() <==> m.Flag >= 64
    ensures m.Flag in MoveFlags.MoveFlagList ==> (m.IsCastling() <==> m.IsQueensideCastling() || m.IsKingsideCastling())
  {
    HighFlagBits(m.Flag as nat);
  }

  /** `flag & 192` keeps the two high bits of a byte: it is non-zero from 64 on. */
  lemma HighFlagBits(flag: nat)
    requires flag < 256
    ensures AndBits(flag, 192) > 0 <==> flag >= 64
  {
    assert Pow2(6) == 64 && Pow2(8) == 256;
    BandMask(flag, 6, 8);
    DivUnique(flag, 256, 0, flag);
    assert flag % Pow2(8) == flag;
    assert AndBits(flag, 192) == flag / 64 * 64;
  }

  /** The rook a castling move takes along: a1 or a8 queenside, h1 or h8 kingside, for the
      mover's colour; -1 when the move is no castling. */
  lemma {:induction false} CastlingRookSquareSpec(startingSquare: int32, targetSquare: int32, friendlyPiece: int32, opponentPiece: int32, flag: byte)
    requires 0 <= startingSquare < 64 && 0 <= targetSquare < 64
    requires 0 <= friendlyPiece < 16 && 0 <= opponentPiece < 32
    ensures var m := NewMove(startingSquare, targetSquare, friendlyPiece, opponentPiece, flag);
      var white := friendlyPiece < 8;
      m.CastlingRookSquare() ==
        if m.IsQueensideCastling() then (if white then 0 else 56)
        else if m.IsKingsideCastling() then (if white then 7 else 63)
        else -1
  {
    PackRoundTrip(startingSquare, targetSquare, friendlyPiece, opponentPiece, flag);
    Piece.ColourOfPiece(friendlyPiece as int);
  }
}
