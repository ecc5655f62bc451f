// Piece codes of the chess engine (ConsoleApp/Chess/Piece.cs).
//
// A piece is a small number: bits 0-2 hold its type, bits 3-4 its colour. The
// engine (board, generator, key) indexes colours by `piece >> 3` and keeps 16
// piece bitboards, so the colours are White = 0 and Black = 8 here.

module Piece {
  import opened CSharp
  import opened ULong

  const None := 0
  const Pawn := 1
  const King := 2
  const Knight := 3
  const Bishop := 5
  const Rook := 6
  const Queen := 7

  const White := 0
  const Black := 8

  const TypeMask := 7
  const ColourMask := 24
  const SlidingPieceMask := 4
  const BishopOrQueenMask := 5
  const RookOrQueenMask := 6

  const UpperPieceSymbols := "_PKN_BRQ"
  const LowerPieceSymbols := "_pkn_brq"

  // The move flags a promotion carries (MoveFlags.cs); repeated here so that this
  // module does not depend on the move modules.
  const PromotionKnightFlag := 1
  const PromotionBishopFlag := 2
  const PromotionRookFlag := 4
  const PromotionQueenFlag := 8

  function Type(piece: nat): (t: nat)
    ensures t < 8
  {
    AndBitsBound(piece, TypeMask);
    AndBits(piece, TypeMask)
  }

  function Colour(piece: nat): nat {
    AndBits(piece, ColourMask)
  }

  predicate IsType(piece: nat, t: int) {
    AndBits(piece, TypeMask) == t
  }

  predicate IsColour(piece: nat, colour: nat) {
    AndBits(piece, colour) == colour
  }

  /** The white test written as `(piece & White) == White`, read with this model's
      White = 0 (with Piece.cs's own White = 8 it tests the white bit). */
  predicate IsWhiteMaskTest(piece: nat) {
    AndBits(piece, White) == White
  }

  /** A piece is white when its Black bit is clear. */
  predicate IsWhite(piece: nat) {
    AndBits(piece, Black) == 0
  }

  predicate IsEmpty(piece: nat) {
    AndBits(piece, TypeMask) == None || AndBits(piece, TypeMask) == 4
  }

  predicate IsSlidingPiece(piece: nat) {
    AndBits(piece, SlidingPieceMask) == 4
  }

  predicate IsBishopOrQueen(piece: nat) {
    AndBits(piece, BishopOrQueenMask) == BishopOrQueenMask
  }

  predicate IsRookOrQueen(piece: nat) {
    AndBits(piece, RookOrQueenMask) == RookOrQueenMask
  }

  /** `piece >> 3`: 0 for White, 1 for Black. */
  function ColourIndex(piece: nat): nat {
    piece / 8
  }

  /** `kind | colour`: the piece of a type and a colour code. The type fills the low three
      bits and the colour code bit 3, so the or is a sum. */
  function WithColour(kind: nat, colour: nat): (piece: nat)
    requires kind < 8 && (colour == White || colour == Black)
    ensures piece == kind + colour
  {
    OrDisjoint(kind, colour);
    OrBits(kind, colour)
  }

  /** `colour ^ 8`: the other colour code. */
  function OpponentOf(colour: nat): (opponent: nat)
    ensures colour == White ==> opponent == Black
    ensures colour == Black ==> opponent == White
  {
    XorBits(colour, Black)
  }

  /** `index ^ 1`: the other colour index. */
  function OtherIndex(index: nat): (other: nat)
    ensures index == 0 ==> other == 1
    ensures index == 1 ==> other == 0
  {
    XorBits(index, 1)
  }

  lemma OrDisjoint(kind: nat, colour: nat)
    requires kind < 8 && (colour == White || colour == Black)
    ensures OrBits(kind, colour) == kind + colour
  {
    assert Pow2(3) == 8;
    OrConcat(colour / 8, 3, kind);
    OrBitsCommute(kind, colour);
  }

  // ------------------------------------------------------------- mask lemmas

  /** `piece & 7` is the piece's value modulo 8. */
  lemma TypeIsLowBits(piece: nat)
    ensures Type(piece) == piece % 8
  {
    assert Pow2(3) == 8;
    LowMask(piece, 3);
  }

  /** `piece & 24` is bits 3 and 4 of the piece, kept in place. */
  lemma ColourIsMiddleBits(piece: nat)
    ensures Colour(piece) == piece % 32 / 8 * 8
  {
    assert Pow2(3) == 8 && Pow2(5) == 32;
    BandMask(piece, 3, 5);
  }

  /** A mask below 8 sees only the type bits. */
  lemma SmallMask(p: nat, m: nat)
    requires m < 8
    ensures AndBits(p, m) == AndBits(p % 8, m)
  {
    assert Pow2(3) == 8;
    forall k: nat
      ensures BitOf(AndBits(p, m), k) == BitOf(AndBits(p % 8, m), k)
    {
      AndBitAt(p, m, k);
      AndBitAt(p % 8, m, k);
      BitOfMod(p, 3, k);
      if k >= 3 {
        BitOfHigh(m, 3, k);
      }
    }
    BitsEqual(AndBits(p, m), AndBits(p % 8, m));
  }

  /** The class predicates depend on the type alone, as the masks promise: sliding pieces
      are the types 4 to 7, bishop-or-queen the types 5 and 7, rook-or-queen 6 and 7,
      and the empty codes are the types 0 and 4. */
  lemma {:induction false} PieceClasses(piece: nat)
    ensures Type(piece) == piece % 8
    ensures IsSlidingPiece(piece) <==> 4 <= Type(piece) <= 7
    ensures IsBishopOrQueen(piece) <==> Type(piece) == Bishop || Type(piece) == Queen
    ensures IsRookOrQueen(piece) <==> Type(piece) == Rook || Type(piece) == Queen
    ensures IsEmpty(piece) <==> Type(piece) == None || Type(piece) == 4
    ensures IsType(piece, Type(piece))
  {
    TypeIsLowBits(piece);
    SmallMask(piece, 4);
    SmallMask(piece, 5);
    SmallMask(piece, 6);
    var t := piece % 8;
    assert t == 0 || t == 1 || t == 2 || t == 3 || t == 4 || t == 5 || t == 6 || t == 7;
  }

  /** With the engine's colour codes a piece below 16 is white exactly when it is below 8,
      its colour is `White` or `Black`, and its colour index is 0 or 1. */
  lemma {:induction false} ColourOfPiece(piece: nat)
    requires piece < 16
    ensures Colour(piece) == (if piece < 8 then White else Black)
    ensures IsWhite(piece) <==> piece < 8
    ensures IsColour(piece, Colour(piece))
    ensures ColourIndex(piece) == Colour(piece) / 8
  {
    ColourIsMiddleBits(piece);
    assert Pow2(3) == 8;
    var expected := if piece < 8 then 0 else 8;
    forall k: nat
      ensures BitOf(AndBits(piece, Black), k) == BitOf(expected, k)
    {
      AndBitAt(piece, Black, k);
      BitOfPow2(3, k);
      ZeroBits(k);
      if k == 3 {
        BitOfDiv(piece, 3, 0);
        DivUnique(piece, 8, piece / 8, piece % 8);
      }
    }
    BitsEqual(AndBits(piece, Black), expected);
    if piece < 8 {
      ZerosAnd(piece);
    }
  }

  lemma {:induction false} ZerosAnd(a: nat)
    ensures AndBits(a, 0) == 0
  {
    AndBitsBound(a, 0);
  }

  /** Under the White = 0 convention, the test `(piece & White) == White` holds for every
      piece, so the colour test the engine needs is `IsWhite` (black bit clear) instead. */
  lemma IsWhiteMaskTestAlways(piece: nat)
    ensures IsWhiteMaskTest(piece)
  {
    ZerosAnd(piece);
  }

  // --------------------------------------------------------------- promotions

  /** The piece type a promotion flag asks for; None for any other flag. */
  function GetPromotionType(flag: int): (t: int)
    ensures t in {None, Knight, Bishop, Rook, Queen}
    ensures t != None <==> flag in {PromotionKnightFlag, PromotionBishopFlag, PromotionRookFlag, PromotionQueenFlag}
  {
    match flag
    case 1 => Knight
    case 2 => Bishop
    case 4 => Rook
    case 8 => Queen
    case _ => None
  }

  /** The promotion flag of a piece type; 0 for a type no pawn promotes to. */
  function GetPromotionFlag(piece: int): (flag: int)
    ensures flag in {0, PromotionKnightFlag, PromotionBishopFlag, PromotionRookFlag, PromotionQueenFlag}
    ensures piece in {Knight, Bishop, Rook, Queen} ==> GetPromotionType(flag) == piece
    ensures piece !in {Knight, Bishop, Rook, Queen} ==> flag == 0
  {
    match piece
    case 3 => PromotionKnightFlag
    case 5 => PromotionBishopFlag
    case 6 => PromotionRookFlag
    case 7 => PromotionQueenFlag
    case _ => 0
  }

  /** The two maps are inverse on the four promotion flags. */
  lemma PromotionRoundTrip(flag: int)
    requires flag in {PromotionKnightFlag, PromotionBishopFlag, PromotionRookFlag, PromotionQueenFlag}
    ensures GetPromotionFlag(GetPromotionType(flag)) == flag
  {
  }

  // ------------------------------------------------------------------ symbols

  /** `LowerPieceSymbols.IndexOf(char.ToLower(c))`: the type whose letter `c` is, in
      either case, or -1 for a character that is no piece letter. */
  function GetPieceType(c: char): (t: int)
    ensures -1 <= t < 8
    ensures t >= 0 ==> LowerPieceSymbols[t] == ToLower(c)
    ensures t == -1 <==> ToLower(c) !in LowerPieceSymbols
  {
    IndexOf(LowerPieceSymbols, ToLower(c))
  }

  /** The piece a FEN letter stands for: upper case is white, anything else black, and a
      character that is no piece letter gives None. `White | index` is written `+`, since
      the index stays below 8 and shares no bit with the colour. */
  function GetPiece(c: char): (p: nat)
    ensures p < 16
  {
    if ToUpper(c) in UpperPieceSymbols then
      (if IsUpper(c) then White else Black) + IndexOf(UpperPieceSymbols, ToUpper(c))
    else None
  }

  /** The letter of a piece with the white test read under the White = 0 convention,
      where it holds for every piece. */
  function GetSymbolMaskTest(piece: nat): char {
    if IsWhiteMaskTest(piece) then UpperPieceSymbols[Type(piece)] else LowerPieceSymbols[Type(piece)]
  }

  /** The letter of a piece: upper case for white, lower case for black. */
  function GetSymbol(piece: nat): char {
    if IsWhite(piece) then UpperPieceSymbols[Type(piece)] else LowerPieceSymbols[Type(piece)]
  }

  /** Reading a piece letter and printing the piece gives the letter back. */
  lemma SymbolRoundTrip(c: char)
    requires c in "PKNBRQpknbrq"
    ensures GetPiece(c) != None
    ensures GetSymbol(GetPiece(c)) == c
    ensures GetPieceType(c) == Type(GetPiece(c))
  {
    if c in "PKNBRQ" {
      WhiteRoundTrip(c);
    } else {
      BlackRoundTrip(c);
    }
  }

  lemma {:induction false} WhiteRoundTrip(c: char)
    requires c in "PKNBRQ"
    ensures GetPiece(c) != None && GetSymbol(GetPiece(c)) == c && GetPieceType(c) == Type(GetPiece(c))
  {
    if c == 'P' { LetterAt(c, 1); }
    else if c == 'K' { LetterAt(c, 2); }
    else if c == 'N' { LetterAt(c, 3); }
    else if c == 'B' { LetterAt(c, 5); }
    else if c == 'R' { LetterAt(c, 6); }
    else { LetterAt(c, 7); }
  }

  lemma {:induction false} BlackRoundTrip(c: char)
    requires c in "pknbrq"
    ensures GetPiece(c) != None && GetSymbol(GetPiece(c)) == c && GetPieceType(c) == Type(GetPiece(c))
  {
    if c == 'p' { LetterAt(c, 9); }
    else if c == 'k' { LetterAt(c, 10); }
    else if c == 'n' { LetterAt(c, 11); }
    else if c == 'b' { LetterAt(c, 13); }
    else if c == 'r' { LetterAt(c, 14); }
    else { LetterAt(c, 15); }
  }

  /** The letter at position `p % 8` of the symbol string of its colour reads as piece `p`
      and prints back as itself. */
  lemma LetterAt(c: char, p: nat)
    requires p < 16 && p % 8 != 0 && p % 8 != 4
    requires c == (if p < 8 then UpperPieceSymbols[p % 8] else LowerPieceSymbols[p % 8])
    ensures GetPiece(c) == p && GetSymbol(p) == c && GetPieceType(c) == Type(p)
  {
    SymbolOf(p);
    TypeIsLowBits(p);
    var i := p % 8;
    FirstLetters(i);
    assert IsUpper(UpperPieceSymbols[i]) && IsLower(LowerPieceSymbols[i]) &&
           ToUpper(LowerPieceSymbols[i]) == UpperPieceSymbols[i] &&
           ToLower(UpperPieceSymbols[i]) == LowerPieceSymbols[i] by {
      assert i == 1 || i == 2 || i == 3 || i == 5 || i == 6 || i == 7;
    }
    var u := UpperPieceSymbols[i];
    assert ToUpper(c) == u && u in UpperPieceSymbols;
    assert GetPiece(c) == (if IsUpper(c) then White else Black) + i;
    assert IsUpper(c) <==> p < 8;
    DivUnique(p, 8, if p < 8 then 0 else 1, p - (if p < 8 then 0 else 8));
  }

  /** Each letter of the two symbol strings occurs there first at its own position. */
  lemma FirstLetters(i: nat)
    requires i < 8 && i != 0 && i != 4
    ensures IndexOf(UpperPieceSymbols, UpperPieceSymbols[i]) == i
    ensures IndexOf(LowerPieceSymbols, LowerPieceSymbols[i]) == i
  {
    FirstIndex(UpperPieceSymbols, i);
    FirstIndex(LowerPieceSymbols, i);
  }

  /** A character that differs from every one before position `i` is found at `i`. */
  lemma FirstIndex(s: string, i: nat)
    requires i < |s| && forall j | 0 <= j < i :: s[j] != s[i]
    ensures IndexOf(s, s[i]) == i
  {
    assert s[..i + 1][i] == s[i];
  }

  /** The letter of a piece below 16, read off its value. */
  lemma SymbolOf(piece: nat)
    requires piece < 16
    ensures GetSymbol(piece) == if piece < 8 then UpperPieceSymbols[piece % 8] else LowerPieceSymbols[piece % 8]
  {
    ColourOfPiece(piece);
    TypeIsLowBits(piece);
  }

  /** Under the White = 0 convention, the written white test would print a black pawn
      as `P`; `GetSymbol` therefore tests the black bit. */
  lemma MaskTestLosesColour()
    ensures GetSymbolMaskTest(GetPiece('p')) == 'P'
  {
    IsWhiteMaskTestAlways(GetPiece('p'));
    TypeIsLowBits(GetPiece('p'));
  }
}
