// The position fingerprint (ConsoleApp/Chess/ZobristKey.cs).
//
// The source fills its key tables from a pseudo-random generator with a fixed seed; here
// the tables are a parameter of which only the shape is fixed, so every property below
// holds whatever numbers they hold.

module Zobrist {
  import opened CSharp
  import opened ULong
  import opened Bitboard
  import opened PrecomputedMoveData
  import Piece

  datatype KeyTables = KeyTables(PieceKeys: seq<seq<ulong>>, CastlingKeys: seq<ulong>, EnpassantKeys: seq<ulong>, BlackToMove: ulong)
  {
    /** One key per square and piece code, per castling-rights mask, per file and for "no
        en-passant square". */
    predicate Valid() {
      |PieceKeys| == 64 && (forall s | 0 <= s < 64 :: |PieceKeys[s]| == 16) &&
      |CastlingKeys| == 16 && |EnpassantKeys| == 9
    }
  }

  /** A mailbox: one piece code below 16 per square. */
  predicate IsMailbox(squares: seq<int>) {
    |squares| == 64 && forall s | 0 <= s < 64 :: 0 <= squares[s] < 16
  }

  /** The key of the pieces on the first `n` squares: the piece key of each non-empty
      square, xor-ed together. */
  function PlacementKey(keys: KeyTables, squares: seq<int>, n: nat): ulong
    requires keys.Valid() && IsMailbox(squares) && n <= 64
  {
    if n == 0 then 0
    else
      var key := PlacementKey(keys, squares, n - 1);
      if Piece.IsEmpty(squares[n - 1]) then key else UXor(key, keys.PieceKeys[n - 1][squares[n - 1]])
  }

  /** `enpassantSquare == -1 ? 8 : enpassantSquare & 7`: "none", or the file of the square. */
  function EnpassantIndex(enpassantSquare: int32): (index: int)
    ensures 0 <= index < 9
    ensures index == 8 <==> enpassantSquare == -1
    ensures IsSquare(enpassantSquare as int) ==> index == File(enpassantSquare as int)
  {
    if enpassantSquare == -1 then 8
    else
      FileBitsOf(enpassantSquare);
      And(enpassantSquare, 7) as int
  }

  lemma FileBitsOf(x: int32)
    ensures 0 <= And(x, 7) <= 7
    ensures IsSquare(x as int) ==> And(x, 7) as int == File(x as int)
  {
    AndSmall(x, 7);
    if IsSquare(x as int) {
      SquareArithmetic(x as int);
    }
  }

  /** The key of a position: its pieces, its en-passant file or "none", Black to move, and
      its castling rights. */
  function KeyOf(keys: KeyTables, squares: seq<int>, enpassantSquare: int32, whiteToMove: bool, castlings: int): ulong
    requires keys.Valid() && IsMailbox(squares) && 0 <= castlings < 16
  {
    var key := UXor(PlacementKey(keys, squares, 64), keys.EnpassantKeys[EnpassantIndex(enpassantSquare)]);
    var key := if whiteToMove then key else UXor(key, keys.BlackToMove);
    UXor(key, keys.CastlingKeys[castlings])
  }

  /** `Create`: one pass over the mailbox, then the three position flags. */
  method Create(keys: KeyTables, squares: array<int>, enpassantSquare: int32, whiteToMove: bool, castlings: int)
    returns (zobristKey: ulong)
    requires keys.Valid() && IsMailbox(squares[..]) && 0 <= castlings < 16
    ensures zobristKey == KeyOf(keys, squares[..], enpassantSquare, whiteToMove, castlings)
  {
    zobristKey := 0;
    for square := 0 to 64
      invariant zobristKey == PlacementKey(keys, squares[..], square)
    {
      if !Piece.IsEmpty(squares[square]) {
        zobristKey := UXor(zobristKey, keys.PieceKeys[square][squares[square]]);
      }
    }
    zobristKey := UXor(zobristKey, keys.EnpassantKeys[EnpassantIndex(enpassantSquare)]);
    if !whiteToMove {
      zobristKey := UXor(zobristKey, keys.BlackToMove);
    }
    zobristKey := UXor(zobristKey, keys.CastlingKeys[castlings]);
  }

  // ------------------------------------------------------------ properties

  /** Empty squares contribute nothing: two mailboxes with the same pieces on their
      non-empty squares have the same key, whatever empty codes the others hold. */
  lemma {:induction false} EmptySquaresIgnored(keys: KeyTables, a: seq<int>, b: seq<int>, n: nat)
    requires keys.Valid() && IsMailbox(a) && IsMailbox(b) && n <= 64
    requires forall s | 0 <= s < n :: a[s] == b[s] || (Piece.IsEmpty(a[s]) && Piece.IsEmpty(b[s]))
    ensures PlacementKey(keys, a, n) == PlacementKey(keys, b, n)
  {
    if n > 0 {
      EmptySquaresIgnored(keys, a, b, n - 1);
    }
  }

  /** Putting a piece on an empty square `s` xors its key in, whatever else stands on the
      board: the key can be kept up to date move by move. */
  lemma {:induction false} PlacePiece(keys: KeyTables, squares: seq<int>, s: int, piece: int, n: nat)
    requires keys.Valid() && IsMailbox(squares) && n <= 64 && IsSquare(s) && 0 <= piece < 16
    requires Piece.IsEmpty(squares[s]) && !Piece.IsEmpty(piece)
    ensures PlacementKey(keys, squares[s := piece], n) ==
      if s < n then UXor(PlacementKey(keys, squares, n), keys.PieceKeys[s][piece]) else PlacementKey(keys, squares, n)
  {
    if n > 0 {
      PlacePiece(keys, squares, s, piece, n - 1);
      var before := PlacementKey(keys, squares, n - 1);
      var k := keys.PieceKeys[s][piece];
      if s < n - 1 && !Piece.IsEmpty(squares[n - 1]) {
        var other := keys.PieceKeys[n - 1][squares[n - 1]];
        UXorAlgebra(before, k, other);
        UXorAlgebra(before, other, k);
        UXorAlgebra(k, other, 0);
      }
    }
  }

  /** Black to move differs from White to move by the BlackToMove key alone. */
  lemma SideToMove(keys: KeyTables, squares: seq<int>, enpassantSquare: int32, castlings: int)
    requires keys.Valid() && IsMailbox(squares) && 0 <= castlings < 16
    ensures KeyOf(keys, squares, enpassantSquare, false, castlings) ==
      UXor(KeyOf(keys, squares, enpassantSquare, true, castlings), keys.BlackToMove)
  {
    var key := UXor(PlacementKey(keys, squares, 64), keys.EnpassantKeys[EnpassantIndex(enpassantSquare)]);
    var c := keys.CastlingKeys[castlings];
    UXorAlgebra(key, keys.BlackToMove, c);
    UXorAlgebra(key, c, keys.BlackToMove);
    UXorAlgebra(keys.BlackToMove, c, 0);
  }
}
