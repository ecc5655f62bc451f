// Move-flag and castling-right constants of the chess engine
// (ConsoleApp/Chess/Flags.cs and ConsoleApp/Chess/MoveFlags.cs).
//
// The two files agree on every move flag except castling: Flags.cs makes 64 kingside and
// 128 queenside, MoveFlags.cs the reverse. `Move` decodes flags with MoveFlags.cs, so the
// engine here uses MoveFlags.cs throughout; `Flags` keeps the Flags.cs values as written.

module Flags {
  import opened CSharp
  import ULong

  const None := 0

  const PromotionKnight := 1
  const PromotionBishop := 2
  const PromotionRook := 4
  const PromotionQueen := 8
  const DoublePawnPush := 16
  const EnpassantCapture := 32
  const KingsideCastling := 64
  const QueensideCastling := 128

  const WhiteKingsideCastling := 1
  const WhiteQueensideCastling := 2
  const BlackKingsideCastling := 4
  const BlackQueensideCastling := 8
  const WhiteCastlings := 3
  const BlackCastlings := 12
  const AllCastlings := 15

  /** The move flags in the order they are declared. */
  const MoveFlagList := [PromotionKnight, PromotionBishop, PromotionRook, PromotionQueen,
                         DoublePawnPush, EnpassantCapture, KingsideCastling, QueensideCastling]

  /** The castling rights in KQkq order. */
  const CastlingList := [WhiteKingsideCastling, WhiteQueensideCastling,
                         BlackKingsideCastling, BlackQueensideCastling]

  /** Flag i is bit i alone, so no two flags share a bit. */
  lemma MoveFlagBits()
    ensures forall i :: 0 <= i < 8 ==> MoveFlagList[i] == Pow2(i)
    ensures forall i, j :: 0 <= i < j < 8 ==> AndBits(MoveFlagList[i], MoveFlagList[j]) == 0
  {
    PowersOfTwo();
    forall i, j | 0 <= i < j < 8
      ensures AndBits(MoveFlagList[i], MoveFlagList[j]) == 0
    {
      DistinctBits(i, j);
    }
  }

  /** Castling right i is bit i alone, in KQkq order, and the colour groups are their
      unions: White the two low bits, Black the two high bits, All the four. */
  lemma CastlingBits()
    ensures forall i :: 0 <= i < 4 ==> CastlingList[i] == Pow2(i)
    ensures WhiteCastlings == OrBits(WhiteKingsideCastling, WhiteQueensideCastling)
    ensures BlackCastlings == OrBits(BlackKingsideCastling, BlackQueensideCastling)
    ensures AllCastlings == OrBits(WhiteCastlings, BlackCastlings)
    ensures AndBits(WhiteCastlings, BlackCastlings) == 0
  {
    PowersOfTwo();
    forall k: nat
      ensures !BitOf(AndBits(WhiteCastlings, BlackCastlings), k)
    {
      AndBitAt(3, 12, k);
      ULong.BitOfLowMask(2, k);
      ULong.BitOfRange(2, 4, k);
      ZeroBits(k);
    }
    ULong.BitsEqual(AndBits(WhiteCastlings, BlackCastlings), 0);
  }

  lemma PowersOfTwo()
    ensures Pow2(0) == 1 && Pow2(1) == 2 && Pow2(2) == 4 && Pow2(3) == 8
    ensures Pow2(4) == 16 && Pow2(5) == 32 && Pow2(6) == 64 && Pow2(7) == 128
  {
  }

  /** Two distinct powers of two share no bit. */
  lemma DistinctBits(i: nat, j: nat)
    requires i != j
    ensures AndBits(Pow2(i), Pow2(j)) == 0
  {
    forall k: nat
      ensures BitOf(AndBits(Pow2(i), Pow2(j)), k) == BitOf(0, k)
    {
      AndBitAt(Pow2(i), Pow2(j), k);
      ULong.BitOfPow2(i, k);
      ULong.BitOfPow2(j, k);
      ZeroBits(k);
    }
    ULong.BitsEqual(AndBits(Pow2(i), Pow2(j)), 0);
  }
}

module MoveFlags {
  import opened CSharp
  import ULong
  import Flags

  const None := 0
  const PromotionKnight := 1
  const PromotionBishop := 2
  const PromotionRook := 4
  const PromotionQueen := 8
  const DoublePawnPush := 16
  const EnpassantCapture := 32
  const QueensideCastling := 64
  const KingsideCastling := 128

  const MoveFlagList := [PromotionKnight, PromotionBishop, PromotionRook, PromotionQueen,
                         DoublePawnPush, EnpassantCapture, QueensideCastling, KingsideCastling]

  /** Every flag is a single bit of a byte, None is 0, and the promotion flags are exactly
      the four low bits. */
  lemma MoveFlagBits()
    ensures forall i :: 0 <= i < 8 ==> MoveFlagList[i] == Pow2(i)
    ensures OrBits(OrBits(PromotionKnight, PromotionBishop), OrBits(PromotionRook, PromotionQueen)) == Pow2(4) - 1
  {
    Flags.PowersOfTwo();
  }

  /** The two flag files agree on the six non-castling flags and swap the castling ones. */
  lemma AgreesWithFlags()
    ensures MoveFlagList[..6] == Flags.MoveFlagList[..6]
    ensures QueensideCastling == Flags.KingsideCastling && KingsideCastling == Flags.QueensideCastling
  {
  }
}
