// The attack tables of the chess engine (ConsoleApp/Chess/PrecomputedMoveData.cs): pawn
// pushes and captures, king and knight patterns, the eight sliding rays of every square and
// the castling paths. Each table entry is written as the source's shift-and-mask
// expression, and a lemma states which squares it holds in board geometry.

module PrecomputedMoveData {
  import opened CSharp
  import opened ULong
  import opened Bitboard

  // --------------------------------------------------------------- geometry

  function File(s: int): int { s % 8 }
  function Rank(s: int): int { s / 8 }

  /** A number is eight times its rank plus its file. */
  lemma Coords(x: int)
    ensures x == 8 * Rank(x) + File(x) && 0 <= File(x) < 8
  {
  }

  /** One rank up keeps the file. */
  lemma RankUp(x: int)
    ensures File(x + 8) == File(x) && Rank(x + 8) == Rank(x) + 1
  {
    DivShift8(x);
  }

  lemma DivShift8(x: int)
    ensures (x + 8) % 8 == x % 8 && (x + 8) / 8 == x / 8 + 1
  {
  }

  /** The step of each direction, in the source's order S, N, W, E, SW, NE, SE, NW. */
  const DirectionOffsets: seq<int> := [-8, 8, -1, 1, -9, 9, -7, 7]

  /** The rank and file change of one step in each direction. */
  const RankStep: seq<int> := [-1, 1, 0, 0, -1, 1, -1, 1]
  const FileStep: seq<int> := [0, 0, -1, 1, -1, 1, 1, -1]

  lemma DirectionSteps(d: int)
    requires 0 <= d < 8
    ensures DirectionOffsets[d] == 8 * RankStep[d] + FileStep[d]
    ensures (d % 2 == 0) <==> DirectionOffsets[d] < 0
  {
  }

  /** Square `t` lies on the ray from `sq` in direction `d`: `t` is reached from `sq` by one
      or more steps of that direction without leaving the board. */
  predicate OnRay(sq: int, d: int, t: int)
    requires 0 <= d < 8
  {
    IsSquare(sq) && IsSquare(t) && t != sq &&
    var dr, df := Rank(t) - Rank(sq), File(t) - File(sq);
    // as many rank steps as file steps, when the direction moves along both
    dr * FileStep[d] == df * RankStep[d] &&
    // every coordinate moves the direction's way
    dr * RankStep[d] >= 0 && df * FileStep[d] >= 0 &&
    (RankStep[d] == 0 ==> dr == 0) && (FileStep[d] == 0 ==> df == 0)
  }

  /** The forward direction of a colour index: up the board for White, down for Black. */
  function Forward(colour: int): int { if colour == 0 then 1 else -1 }

  /** Square `t` is the single push of a pawn of colour index `colour` on `square`. */
  predicate PawnPush(square: int, colour: int, t: int) {
    IsSquare(t) && t == square + 8 * Forward(colour)
  }

  /** Square `t` is one of the two squares a pawn on `square` attacks: one rank forward and
      one file to either side. */
  predicate PawnAttack(square: int, colour: int, t: int) {
    IsSquare(t) && Rank(t) == Rank(square) + Forward(colour) && (File(t) - File(square) == 1 || File(square) - File(t) == 1)
  }

  /** Square `t` is one king step from `square`. */
  predicate KingStep(square: int, t: int) {
    IsSquare(t) && t != square && -1 <= Rank(t) - Rank(square) <= 1 && -1 <= File(t) - File(square) <= 1
  }

  /** Square `t` is one knight jump from `square`. */
  predicate KnightJump(square: int, t: int) {
    IsSquare(t) && (KnightWide(square, t) || KnightTall(square, t))
  }

  // ------------------------------------------------------------ the masks

  const FileA: ulong := 0x0101010101010101
  const FileB: ulong := 0x0202020202020202
  const FileC: ulong := 0x0404040404040404
  const FileD: ulong := 0x0808080808080808
  const FileE: ulong := 0x1010101010101010
  const FileF: ulong := 0x2020202020202020
  const FileG: ulong := 0x4040404040404040
  const FileH: ulong := 0x8080808080808080

  const Rank1: ulong := 0x00000000000000FF
  const Rank2: ulong := 0x000000000000FF00
  const Rank3: ulong := 0x0000000000FF0000
  const Rank4: ulong := 0x00000000FF000000
  const Rank5: ulong := 0x000000FF00000000
  const Rank6: ulong := 0x0000FF0000000000
  const Rank7: ulong := 0x00FF000000000000
  const Rank8: ulong := 0xFF00000000000000

  /** The empty squares between king and rook that castling needs, in the order of the
      castling rights: white kingside f1 g1, white queenside c1 d1, black kingside f8 g8,
      black queenside c8 d8. */
  const Castlings: seq<ulong> := [0x0000000000000060, 0x000000000000000C, 0x6000000000000000, 0x0C00000000000000]

  function FileMask(f: int): ulong
    requires 0 <= f < 8
  {
    [FileA, FileB, FileC, FileD, FileE, FileF, FileG, FileH][f]
  }

  function RankMask(r: int): ulong
    requires 0 <= r < 8
  {
    [Rank1, Rank2, Rank3, Rank4, Rank5, Rank6, Rank7, Rank8][r]
  }

  /** 1 + 2^step + 2^(2 step) + ... : `n` digits, `step` apart. */
  function Stride(step: nat, n: nat): nat {
    if n == 0 then 0 else Stride(step, n - 1) * Pow2(step) + 1
  }

  lemma {:induction false} StrideAt(step: nat, n: nat, t: nat)
    requires step >= 1
    ensures BitOf(Stride(step, n), t) <==> t % step == 0 && t / step < n
  {
    if n == 0 {
      ZeroBits(t);
    } else {
      var x := Stride(step, n - 1);
      StrideStep(x, step, t);
      if t >= step {
        DivShift(t, step);
        StrideAt(step, n - 1, t - step);
      } else if t > 0 {
        DivUnique(t, step, 0, t);
      }
    }
  }

  /** The digits of x * 2^step + 1: the lowest one, and those of x moved up by `step`. */
  lemma StrideStep(x: nat, step: nat, t: nat)
    requires step >= 1
    ensures BitOf(x * Pow2(step) + 1, t) <==> t == 0 || (t >= step && BitOf(x, t - step))
  {
    var y := x * Pow2(step - 1);
    assert x * Pow2(step) == 2 * y;
    if t > 0 {
      assert BitOf(2 * y + 1, t) == BitOf(2 * y, t);
      BitOfMul(x, step, t);
    }
  }

  lemma DivShift(t: nat, step: nat)
    requires t >= step >= 1
    ensures (t - step) % step == t % step && (t - step) / step == t / step - 1
  {
    DivUnique(t, step, t / step, t % step);
    DivUnique(t - step, step, t / step - 1, t % step);
  }

  lemma FileMaskIsStride(f: int)
    requires 0 <= f < 8
    ensures FileMask(f) == Stride(8, 8) * Pow2(f)
  {
    assert Pow2(8) == 256;
    assert Stride(8, 8) == 0x0101010101010101;
  }

  /** File mask `f` holds exactly the squares of file `f`. */
  lemma FileMaskAt(f: int, t: nat)
    requires 0 <= f < 8
    ensures BitOf(FileMask(f), t) <==> IsSquare(t) && File(t) == f
  {
    FileMaskIsStride(f);
    BitOfMul(Stride(8, 8), f, t);
    if t >= f {
      StrideAt(8, 8, t - f);
      FileOffset(f, t);
    } else {
      Coords(t);
    }
  }

  /** The squares from `f` on, eight apart, are those of file `f`. */
  lemma FileOffset(f: int, t: nat)
    requires 0 <= f < 8 && t >= f
    ensures ((t - f) % 8 == 0 && (t - f) / 8 < 8) <==> IsSquare(t) && File(t) == f
  {
    Coords(t);
    if t % 8 == f {
      DivUnique(t - f, 8, t / 8, 0);
    }
    if (t - f) % 8 == 0 {
      DivUnique(t, 8, (t - f) / 8, f);
    }
  }

  lemma {:induction false} RankMaskIsRange(r: int)
    requires 0 <= r < 8
    ensures RankMask(r) == 255 * Pow2(8 * r)
  {
    if r > 0 {
      RankMaskIsRange(r - 1);
      Pow2Add(8 * (r - 1), 8);
      assert Pow2(8) == 256;
      assert RankMask(r) == 256 * RankMask(r - 1);
    }
  }

  /** Rank mask `r` holds exactly the squares of rank `r`. */
  lemma RankMaskAt(r: int, t: nat)
    requires 0 <= r < 8
    ensures BitOf(RankMask(r), t) <==> IsSquare(t) && Rank(t) == r
  {
    RankMaskIsRange(r);
    assert 255 == Pow2(8) - 1;
    BitOfMul(255, 8 * r, t);
    if t >= 8 * r {
      BitOfLowMask(8, t - 8 * r);
    }
  }

  /** `~FileX` holds every square off file `f`. */
  lemma NotFileAt(f: int, t: nat)
    requires 0 <= f < 8
    ensures BitOf(UNot(FileMask(f)), t) <==> IsSquare(t) && File(t) != f
  {
    UNotAt(FileMask(f), t);
    FileMaskAt(f, t);
  }

  lemma CastlingsAt(i: int, t: nat)
    requires 0 <= i < 4
    ensures BitOf(Castlings[i], t) <==> t == [5, 2, 61, 58][i] || t == [6, 3, 62, 59][i]
  {
    var lo := [5, 2, 61, 58][i];
    CastlingsRange(i);
    BitOfRange(lo, lo + 2, t);
  }

  lemma CastlingsRange(i: int)
    requires 0 <= i < 4
    ensures Castlings[i] == Pow2([7, 4, 63, 60][i]) - Pow2([5, 2, 61, 58][i])
  {
    if i == 0 {
      assert Pow2(7) == 128 && Pow2(5) == 32;
    } else if i == 1 {
      assert Pow2(4) == 16 && Pow2(2) == 4;
    } else if i == 2 {
      BitsTable(63);
      BitsTable(61);
    } else {
      BitsTable(60);
      BitsTable(58);
    }
  }

  // ------------------------------------------------- shifts of one square

  /** `1UL << square`. */
  function SquareBit(square: int): ulong
    requires IsSquare(square)
  {
    UShl(1, square)
  }

  lemma SquareBitAt(square: int, t: nat)
    requires IsSquare(square)
    ensures BitOf(SquareBit(square), t) <==> t == square
  {
    SingleSquare(square);
  }

  lemma ShlSquareAt(square: int, n: int, t: nat)
    requires IsSquare(square) && 0 <= n < 64
    ensures BitOf(UShl(SquareBit(square), n), t) <==> t < 64 && t == square + n
  {
    assert n % 64 == n;
    UShlAt(SquareBit(square), n, t);
    if t >= n {
      SquareBitAt(square, t - n);
    }
  }

  lemma ShrSquareAt(square: int, n: int, t: nat)
    requires IsSquare(square) && 0 <= n < 64
    ensures BitOf(UShr(SquareBit(square), n), t) <==> t + n == square
  {
    UShrAt(SquareBit(square), n, t);
    SquareBitAt(square, t + n);
  }

  // ------------------------------------------ the int arithmetic on squares

  lemma AndSeven(a: nat)
    ensures AndBits(a, 7) == a % 8
  {
    assert 7 == Pow2(3) - 1 && Pow2(3) == 8;
    forall k: nat
      ensures BitOf(AndBits(a, 7), k) == BitOf(a % 8, k)
    {
      AndBitAt(a, 7, k);
      BitOfLowMask(3, k);
      BitOfMod(a, 3, k);
    }
    BitsEqual(AndBits(a, 7), a % 8);
  }

  lemma AndFiftySix(a: nat)
    requires a < 64
    ensures AndBits(a, 56) == a - a % 8
  {
    forall k: nat
      ensures BitOf(AndBits(a, 56), k) == BitOf(a - a % 8, k)
    {
      AndFiftySixAt(a, k);
    }
    BitsEqual(AndBits(a, 56), a - a % 8);
  }

  lemma AndFiftySixAt(a: nat, k: nat)
    requires a < 64
    ensures BitOf(AndBits(a, 56), k) == BitOf(a - a % 8, k)
  {
    assert Pow2(3) == 8 && Pow2(6) == 64;
    assert a - a % 8 == (a / 8) * Pow2(3);
    AndBitAt(a, 56, k);
    BitOfRange(3, 6, k);
    BitOfMul(a / 8, 3, k);
    if k >= 6 {
      BitOfHigh(a, 6, k);
      BitOfHigh(a / 8, 3, k - 3);
    } else if k >= 3 {
      BitOfDiv(a, 3, k - 3);
    }
  }

  lemma OrSeven(a: nat)
    ensures OrBits(a, 7) == a - a % 8 + 7
  {
    var v := a - a % 8 + 7;
    assert Pow2(3) == 8 && 7 == Pow2(3) - 1;
    DivUnique(v, 8, a / 8, 7);
    forall k: nat
      ensures BitOf(OrBits(a, 7), k) == BitOf(v, k)
    {
      OrBitAt(a, 7, k);
      BitOfLowMask(3, k);
      if k < 3 {
        BitOfMod(v, 3, k);
      } else {
        BitOfDiv(v, 3, k - 3);
        BitOfDiv(a, 3, k - 3);
      }
    }
    BitsEqual(OrBits(a, 7), v);
  }

  /** What the source's `square & 7`, `square & 56`, `square | 7` and `square ^ 63` are: the
      file, the first square of the rank, the last square of the rank and the square seen
      from the other side of the board. */
  lemma SquareArithmetic(square: int)
    requires IsSquare(square)
    ensures And(square as int32, 7) as int == File(square)
    ensures And(square as int32, 56) as int == 8 * Rank(square)
    ensures Or(square as int32, 7) as int == 8 * Rank(square) + 7
    ensures Xor(square as int32, 63) as int == 63 - square
  {
    AndSeven(square);
    AndFiftySix(square);
    OrSeven(square);
    XorSixtyThree(square as int32);
  }

  lemma AndAllOnes(p: nat)
    requires p < Two32
    ensures AndBits(p, Two32 - 1) == p
  {
    Pow32();
    forall k: nat
      ensures BitOf(AndBits(p, Two32 - 1), k) == BitOf(p, k)
    {
      AndBitAt(p, Two32 - 1, k);
      BitOfLowMask(32, k);
      if k >= 32 {
        BitOfHigh(p, 32, k);
      }
    }
    BitsEqual(AndBits(p, Two32 - 1), p);
  }

  lemma AndMinusOneZero(x: int32)
    ensures And(x, -1) == x && And(x, 0) == 0
  {
    AndAllOnes(Pattern(x));
    PatternInjective(And(x, -1), x);
    AndBitsBound(Pattern(x), 0);
    PatternInjective(And(x, 0), 0);
  }

  /** `x >> 31` is -1 for a negative `x` and 0 otherwise. */
  lemma SignShift(x: int32)
    ensures ShiftRight(x, 31) == if x < 0 then -1 else 0
  {
    Pow32();
    assert Pow2(31) == Two31;
  }

  /** The source's branch-free `-d & (d >> 31)` is `-d` for negative `d` and 0 otherwise;
      `d & (-d >> 31)` is `d` for positive `d` and 0 otherwise. */
  lemma BranchFree(d: int32)
    requires -64 < d < 64
    ensures And(Wrap(-(d as int)), ShiftRight(d, 31)) as int == (if d < 0 then -(d as int) else 0)
    ensures And(d, ShiftRight(Wrap(-(d as int)), 31)) as int == (if d > 0 then d as int else 0)
  {
    var m := Wrap(-(d as int));
    SignShift(d);
    SignShift(m);
    AndMinusOneZero(m);
    AndMinusOneZero(d);
  }

  // ------------------------------------------------------ pawns, king, knight

  /** `PawnPushPatterns[square][colour]`. */
  function PawnPushPattern(square: int, colour: int): ulong
    requires IsSquare(square) && 0 <= colour < 2
  {
    if colour == 0 then UShl(SquareBit(square), 8) else UShr(SquareBit(square), 8)
  }

  /** A pawn pushes one rank forward; from the last rank there is no push. */
  lemma PawnPushExact(square: int, colour: int, t: nat)
    requires IsSquare(square) && 0 <= colour < 2
    ensures BitOf(PawnPushPattern(square, colour), t) <==> PawnPush(square, colour, t)
  {
    ShlSquareAt(square, 8, t);
    ShrSquareAt(square, 8, t);
  }

  /** `PawnCapturePatterns[square][colour]`. */
  function PawnCapturePattern(square: int, colour: int): ulong
    requires IsSquare(square) && 0 <= colour < 2
  {
    var b := SquareBit(square);
    if colour == 0 then
      UOr(UAnd(UShl(b, 7), UNot(FileH)), UAnd(UShl(b, 9), UNot(FileA)))
    else
      UOr(UAnd(UShr(b, 7), UNot(FileA)), UAnd(UShr(b, 9), UNot(FileH)))
  }

  /** A pawn captures on the two squares diagonally in front of it; none wraps around to
      the far file. */
  lemma PawnCaptureExact(square: int, colour: int, t: nat)
    requires IsSquare(square) && 0 <= colour < 2
    ensures BitOf(PawnCapturePattern(square, colour), t) <==> PawnAttack(square, colour, t)
  {
    var b := SquareBit(square);
    NotFileAt(0, t);
    NotFileAt(7, t);
    assert FileMask(0) == FileA && FileMask(7) == FileH;
    if colour == 0 {
      OrBitAt(UAnd(UShl(b, 7), UNot(FileH)), UAnd(UShl(b, 9), UNot(FileA)), t);
      AndBitAt(UShl(b, 7), UNot(FileH), t);
      AndBitAt(UShl(b, 9), UNot(FileA), t);
      ShlSquareAt(square, 7, t);
      ShlSquareAt(square, 9, t);
    } else {
      OrBitAt(UAnd(UShr(b, 7), UNot(FileA)), UAnd(UShr(b, 9), UNot(FileH)), t);
      AndBitAt(UShr(b, 7), UNot(FileA), t);
      AndBitAt(UShr(b, 9), UNot(FileH), t);
      ShrSquareAt(square, 7, t);
      ShrSquareAt(square, 9, t);
    }
  }

  /** The king's moves along its own rank: `(bitboard >> 1) & ~FileH | (bitboard << 1) & ~FileA`. */
  function KingRow(square: int): ulong
    requires IsSquare(square)
  {
    var b := SquareBit(square);
    UOr(UAnd(UShr(b, 1), UNot(FileH)), UAnd(UShl(b, 1), UNot(FileA)))
  }

  /** `KingPatterns[square]`: the row moves, then the ranks above and below the row and the
      king's own square. */
  function KingPattern(square: int): ulong
    requires IsSquare(square)
  {
    var king := KingRow(square);
    var around := UOr(SquareBit(square), king);
    UOr(king, UOr(UShr(around, 8), UShl(around, 8)))
  }

  lemma KingRowAt(square: int, t: nat)
    requires IsSquare(square)
    ensures BitOf(KingRow(square), t) <==>
      IsSquare(t) && Rank(t) == Rank(square) && (File(t) - File(square) == 1 || File(square) - File(t) == 1)
  {
    var b := SquareBit(square);
    NotFileAt(0, t);
    NotFileAt(7, t);
    assert FileMask(0) == FileA && FileMask(7) == FileH;
    OrBitAt(UAnd(UShr(b, 1), UNot(FileH)), UAnd(UShl(b, 1), UNot(FileA)), t);
    AndBitAt(UShr(b, 1), UNot(FileH), t);
    AndBitAt(UShl(b, 1), UNot(FileA), t);
    ShrSquareAt(square, 1, t);
    ShlSquareAt(square, 1, t);
  }

  /** The king's own square and its row moves: the squares of its rank at most one file away. */
  lemma KingAroundAt(square: int, t: nat)
    requires IsSquare(square)
    ensures BitOf(UOr(SquareBit(square), KingRow(square)), t) <==>
      IsSquare(t) && Rank(t) == Rank(square) && -1 <= File(t) - File(square) <= 1
  {
    OrBitAt(SquareBit(square), KingRow(square), t);
    SquareBitAt(square, t);
    KingRowAt(square, t);
  }

  /** Shifting by eight moves a board one rank down (`>>`) or up (`<<`). */
  lemma ShiftRankAt(a: ulong, t: nat)
    ensures BitOf(UShr(a, 8), t) == BitOf(a, t + 8)
    ensures BitOf(UShl(a, 8), t) <==> 8 <= t < 64 && BitOf(a, t - 8)
  {
    UShrAt(a, 8, t);
    UShlAt(a, 8, t);
  }

  lemma KingBelowAt(square: int, t: nat)
    requires IsSquare(square)
    ensures BitOf(UShr(UOr(SquareBit(square), KingRow(square)), 8), t) <==>
      IsSquare(t) && Rank(t) == Rank(square) - 1 && -1 <= File(t) - File(square) <= 1
  {
    ShiftRankAt(UOr(SquareBit(square), KingRow(square)), t);
    KingAroundAt(square, t + 8);
    RankUp(t);
  }

  lemma KingAboveAt(square: int, t: nat)
    requires IsSquare(square)
    ensures BitOf(UShl(UOr(SquareBit(square), KingRow(square)), 8), t) <==>
      IsSquare(t) && Rank(t) == Rank(square) + 1 && -1 <= File(t) - File(square) <= 1
  {
    ShiftRankAt(UOr(SquareBit(square), KingRow(square)), t);
    if t >= 8 {
      KingAroundAt(square, t - 8);
      RankUp(t - 8);
    }
  }

  /** The king reaches exactly the squares at most one rank and one file away, other than
      its own. */
  lemma KingExact(square: int, t: nat)
    requires IsSquare(square)
    ensures BitOf(KingPattern(square), t) <==> KingStep(square, t)
  {
    var king := KingRow(square);
    var around := UOr(SquareBit(square), king);
    OrBitAt(king, UOr(UShr(around, 8), UShl(around, 8)), t);
    OrBitAt(UShr(around, 8), UShl(around, 8), t);
    KingRowAt(square, t);
    KingBelowAt(square, t);
    KingAboveAt(square, t);
    Coords(t);
    Coords(square);
  }

  /** `~(FileG | FileH)` and `~(FileA | FileB)`, folded as the compiler folds constant
      expressions; `FoldedMasksAt` states the squares they hold. */
  const NotFilesGH: ulong := 0x3F3F3F3F3F3F3F3F
  const NotFilesAB: ulong := 0xFCFCFCFCFCFCFCFC

  /** The folded constants hold the squares off files G and H, and off files A and B. */
  lemma FoldedMasksAt(t: nat)
    ensures BitOf(NotFilesGH, t) <==> IsSquare(t) && File(t) != 6 && File(t) != 7
    ensures BitOf(NotFilesAB, t) <==> IsSquare(t) && File(t) != 0 && File(t) != 1
  {
    assert NotFilesGH == Stride(8, 8) * 63 && NotFilesAB == Stride(8, 8) * 252;
    ColumnsAt(8, 63, t);
    ColumnsAt(8, 252, t);
    ColumnDigits(t % 8);
  }

  /** The same eight-digit pattern `m` repeated on `n` ranks. */
  lemma {:induction false} ColumnsAt(n: nat, m: nat, k: nat)
    requires m < 256
    ensures BitOf(Stride(8, n) * m, k) <==> k < 8 * n && BitOf(m, k % 8)
  {
    if n > 0 {
      assert Pow2(8) == 256;
      assert Stride(8, n) * m == (Stride(8, n - 1) * m) * Pow2(8) + m;
      BitOfConcat(Stride(8, n - 1) * m, 8, m, k);
      if k >= 8 {
        ColumnsAt(n - 1, m, k - 8);
        DivShift(k, 8);
      } else {
        assert k % 8 == k;
      }
    } else {
      ZeroBits(k);
    }
  }

  lemma ColumnDigits(f: int)
    requires 0 <= f < 8
    ensures BitOf(63, f) <==> f != 6 && f != 7
    ensures BitOf(252, f) <==> f != 0 && f != 1
  {
    assert Pow2(6) - 1 == 63 && Pow2(2) == 4;
    BitOfLowMask(6, f);
    BitOfMul(63, 2, f);
    if f >= 2 {
      BitOfLowMask(6, f - 2);
    }
  }

  /** One knight jump `(bitboard >> n) & mask` or `(bitboard << n) & mask`. */
  function Jump(square: int, n: int, up: bool, mask: ulong): ulong
    requires IsSquare(square) && 0 <= n < 64
  {
    UAnd(if up then UShl(SquareBit(square), n) else UShr(SquareBit(square), n), mask)
  }

  /** `KnightPatterns[square]`: the eight jumps or-ed in the source's order. */
  function KnightPattern(square: int): ulong
    requires IsSquare(square)
  {
    var knight := 0;
    var knight := UOr(knight, Jump(square, 17, false, UNot(FileH)));
    var knight := UOr(knight, Jump(square, 15, false, UNot(FileA)));
    var knight := UOr(knight, Jump(square, 10, false, NotFilesGH));
    var knight := UOr(knight, Jump(square, 6, false, NotFilesAB));
    var knight := UOr(knight, Jump(square, 6, true, NotFilesGH));
    var knight := UOr(knight, Jump(square, 10, true, NotFilesAB));
    var knight := UOr(knight, Jump(square, 15, true, UNot(FileH)));
    UOr(knight, Jump(square, 17, true, UNot(FileA)))
  }

  /** The jumps one rank away. */
  predicate KnightWide(square: int, t: int) {
    (Rank(t) - Rank(square) == 1 || Rank(square) - Rank(t) == 1) &&
    (File(t) - File(square) == 2 || File(square) - File(t) == 2)
  }

  /** The jumps two ranks away. */
  predicate KnightTall(square: int, t: int) {
    (Rank(t) - Rank(square) == 2 || Rank(square) - Rank(t) == 2) &&
    (File(t) - File(square) == 1 || File(square) - File(t) == 1)
  }

  lemma JumpAt(square: int, n: int, up: bool, mask: ulong, t: nat)
    requires IsSquare(square) && 0 <= n < 64
    ensures BitOf(Jump(square, n, up, mask), t) <==>
      (if up then t < 64 && t == square + n else t + n == square) && BitOf(mask, t)
  {
    AndBitAt(if up then UShl(SquareBit(square), n) else UShr(SquareBit(square), n), mask, t);
    ShlSquareAt(square, n, t);
    ShrSquareAt(square, n, t);
  }

  /** A jump of `dr` ranks and `df` files, masked so that it cannot wrap around the edge. */
  lemma JumpGeometry(square: int, n: int, up: bool, mask: ulong, dr: int, df: int, t: nat)
    requires IsSquare(square) && 0 <= n < 64
    requires 8 * dr + df == (if up then n else -n) && -2 <= df <= 2 && df != 0
    requires forall k: nat :: BitOf(mask, k) <==> IsSquare(k) && (df < 0 ==> File(k) < 8 + df) && (df > 0 ==> File(k) >= df)
    ensures BitOf(Jump(square, n, up, mask), t) <==> IsSquare(t) && Rank(t) == Rank(square) + dr && File(t) == File(square) + df
  {
    JumpAt(square, n, up, mask, t);
    Coords(t);
    Coords(square);
  }

  lemma KnightMasks()
    ensures forall t: nat :: BitOf(UNot(FileH), t) <==> IsSquare(t) && File(t) < 7
    ensures forall t: nat :: BitOf(UNot(FileA), t) <==> IsSquare(t) && File(t) >= 1
    ensures forall t: nat :: BitOf(NotFilesGH, t) <==> IsSquare(t) && File(t) < 6
    ensures forall t: nat :: BitOf(NotFilesAB, t) <==> IsSquare(t) && File(t) >= 2
  {
    assert FileMask(0) == FileA && FileMask(7) == FileH;
    forall t: nat
      ensures BitOf(UNot(FileH), t) <==> IsSquare(t) && File(t) < 7
      ensures BitOf(UNot(FileA), t) <==> IsSquare(t) && File(t) >= 1
      ensures BitOf(NotFilesGH, t) <==> IsSquare(t) && File(t) < 6
      ensures BitOf(NotFilesAB, t) <==> IsSquare(t) && File(t) >= 2
    {
      NotFileAt(0, t);
      NotFileAt(7, t);
      FoldedMasksAt(t);
    }
  }

  lemma KnightLowAt(square: int, t: nat)
    requires IsSquare(square)
    ensures BitOf(UOr(UOr(UOr(UOr(0, Jump(square, 17, false, UNot(FileH))), Jump(square, 15, false, UNot(FileA))),
                          Jump(square, 10, false, NotFilesGH)), Jump(square, 6, false, NotFilesAB)), t)
      <==> IsSquare(t) && Rank(t) < Rank(square) && (KnightWide(square, t) || KnightTall(square, t))
  {
    var j1, j2 := Jump(square, 17, false, UNot(FileH)), Jump(square, 15, false, UNot(FileA));
    var j3, j4 := Jump(square, 10, false, NotFilesGH), Jump(square, 6, false, NotFilesAB);
    OrBitAt(UOr(UOr(UOr(0, j1), j2), j3), j4, t);
    OrBitAt(UOr(UOr(0, j1), j2), j3, t);
    OrBitAt(UOr(0, j1), j2, t);
    OrBitAt(0, j1, t);
    ZeroBits(t);
    KnightMasks();
    JumpGeometry(square, 17, false, UNot(FileH), -2, -1, t);
    JumpGeometry(square, 15, false, UNot(FileA), -2, 1, t);
    JumpGeometry(square, 10, false, NotFilesGH, -1, -2, t);
    JumpGeometry(square, 6, false, NotFilesAB, -1, 2, t);
  }

  lemma KnightHighAt(square: int, knight: ulong, t: nat)
    requires IsSquare(square)
    ensures BitOf(UOr(UOr(UOr(UOr(knight, Jump(square, 6, true, NotFilesGH)), Jump(square, 10, true, NotFilesAB)),
                          Jump(square, 15, true, UNot(FileH))), Jump(square, 17, true, UNot(FileA))), t)
      <==> BitOf(knight, t) || (IsSquare(t) && Rank(t) > Rank(square) && (KnightWide(square, t) || KnightTall(square, t)))
  {
    var j5, j6 := Jump(square, 6, true, NotFilesGH), Jump(square, 10, true, NotFilesAB);
    var j7, j8 := Jump(square, 15, true, UNot(FileH)), Jump(square, 17, true, UNot(FileA));
    OrBitAt(UOr(UOr(UOr(knight, j5), j6), j7), j8, t);
    OrBitAt(UOr(UOr(knight, j5), j6), j7, t);
    OrBitAt(UOr(knight, j5), j6, t);
    OrBitAt(knight, j5, t);
    KnightMasks();
    JumpGeometry(square, 6, true, NotFilesGH, 1, -2, t);
    JumpGeometry(square, 10, true, NotFilesAB, 1, 2, t);
    JumpGeometry(square, 15, true, UNot(FileH), 2, -1, t);
    JumpGeometry(square, 17, true, UNot(FileA), 2, 1, t);
  }

  /** The knight reaches exactly the squares two ranks and one file, or one rank and two
      files, away; no jump wraps around the board's edge. */
  lemma KnightExact(square: int, t: nat)
    requires IsSquare(square)
    ensures BitOf(KnightPattern(square), t) <==> KnightJump(square, t)
  {
    var low := UOr(UOr(UOr(UOr(0, Jump(square, 17, false, UNot(FileH))), Jump(square, 15, false, UNot(FileA))),
                       Jump(square, 10, false, NotFilesGH)), Jump(square, 6, false, NotFilesAB));
    KnightLowAt(square, t);
    KnightHighAt(square, low, t);
  }

  // ------------------------------------------------------------------ rays

  /** `0x0080808080808080UL >> (square ^ 63)`: the squares below `square` on its file. */
  function SouthRay(square: int): ulong
    requires IsSquare(square)
  {
    UShr(0x0080808080808080, Xor(square as int32, 63) as int)
  }

  /** `0x0101010101010100UL << square`. */
  function NorthRay(square: int): ulong
    requires IsSquare(square)
  {
    UShl(0x0101010101010100, square)
  }

  /** `(1UL << square) - (1UL << (square & 56))`. */
  function WestRay(square: int): ulong
    requires IsSquare(square)
  {
    USub(UShl(1, square), UShl(1, And(square as int32, 56) as int))
  }

  /** `2 * ((1UL << (square | 7)) - (1UL << square))`. */
  function EastRay(square: int): ulong
    requires IsSquare(square)
  {
    UMul(2, USub(UShl(1, Or(square as int32, 7) as int), UShl(1, square)))
  }

  /** `(line >> s) << n` with the branch-free amounts `n = -d & (d >> 31)` and
      `s = d & (-d >> 31)`: the source moves both diagonals onto a square this way. */
  function ShiftedLine(line: ulong, d: int32): ulong {
    var n := And(Wrap(-(d as int)), ShiftRight(d, 31));
    var s := And(d, ShiftRight(Wrap(-(d as int)), 31));
    UShl(UShr(line, s as int), n as int)
  }

  /** The main diagonal `0x8040201008040201UL` moved onto `square`, with
      `d = 8 * (square & 7) - (square & 56)`. */
  function Diagonal(square: int): ulong
    requires IsSquare(square)
  {
    SquareArithmetic(square);
    ShiftedLine(0x8040201008040201, (8 * And(square as int32, 7) as int - And(square as int32, 56) as int) as int32)
  }

  /** The anti-diagonal `0x0102040810204080UL` moved onto `square`, with
      `d = 56 - 8 * (square & 7) - (square & 56)`. */
  function AntiDiagonal(square: int): ulong
    requires IsSquare(square)
  {
    SquareArithmetic(square);
    ShiftedLine(0x0102040810204080, (56 - 8 * And(square as int32, 7) as int - And(square as int32, 56) as int) as int32)
  }

  /** `~1UL << square`: every square above `square`. */
  function UpperBits(square: int): ulong
    requires IsSquare(square)
  {
    UShl(UNot(1), square)
  }

  /** `(1UL << square) - 1`: every square below `square`. */
  function LowerBits(square: int): ulong
    requires IsSquare(square)
  {
    USub(UShl(1, square), 1)
  }

  /** `RayPatterns[square]`: the eight rays from `square`, in the order of `DirectionOffsets`. */
  function Rays(square: int): (r: seq<ulong>)
    requires IsSquare(square)
    ensures |r| == 8
  {
    var south := SouthRay(square);
    var north := NorthRay(square);
    var west := WestRay(square);
    var east := EastRay(square);
    var diagonal := Diagonal(square);
    var antiDiagonal := AntiDiagonal(square);
    var upperBits := UpperBits(square);
    var lowerBits := LowerBits(square);
    [south, north, west, east,
     UAnd(diagonal, lowerBits), UAnd(diagonal, upperBits),
     UAnd(antiDiagonal, lowerBits), UAnd(antiDiagonal, upperBits)]
  }

  /** `RayPatterns[square][direction]`. */
  function RayPattern(square: int, direction: int): ulong
    requires IsSquare(square) && 0 <= direction < 8
  {
    Rays(square)[direction]
  }

  /** The digits of the two file constants the vertical rays shift. */
  lemma FileColumnsAt(x: nat)
    ensures BitOf(0x0080808080808080, x) <==> x % 8 == 7 && x < 63
    ensures BitOf(0x0101010101010100, x) <==> x % 8 == 0 && 8 <= x < 64
  {
    ColumnAt(0x0080808080808080, 7, x);
    ColumnAt(0x0101010101010100, 8, x);
  }

  /** Seven squares eight apart, the lowest `k`: those `x` at least `k` on the file of `k`
      below `56 + k`. */
  lemma ColumnAt(column: nat, k: nat, x: nat)
    requires 7 <= k <= 8 && column == Stride(8, 7) * Pow2(k)
    ensures BitOf(column, x) <==> k <= x < 56 + k && x % 8 == k % 8
  {
    BitOfMul(Stride(8, 7), k, x);
    if x >= k {
      StrideAt(8, 7, x - k);
      StrideOffset(k, x);
    }
  }

  /** `x - k` is a multiple of eight below 56 when `x` is on the file of `k` below `56 + k`. */
  lemma StrideOffset(k: nat, x: nat)
    requires 1 <= k <= 8 && x >= k
    ensures ((x - k) % 8 == 0 && (x - k) / 8 < 7) <==> (x % 8 == k % 8 && x < 56 + k)
  {
    Coords(x);
    if k < 8 {
      if x % 8 == k {
        DivUnique(x - k, 8, x / 8, 0);
      }
      if (x - k) % 8 == 0 {
        DivUnique(x, 8, (x - k) / 8, k);
      }
    } else {
      if x % 8 == 0 {
        DivUnique(x - 8, 8, x / 8 - 1, 0);
      }
      if (x - 8) % 8 == 0 {
        DivUnique(x, 8, (x - 8) / 8 + 1, 0);
      }
    }
  }

  lemma SouthRayAt(square: int, t: nat)
    requires IsSquare(square)
    ensures BitOf(SouthRay(square), t) <==> IsSquare(t) && File(t) == File(square) && t < square
  {
    XorSixtyThree(square as int32);
    assert (63 - square) % 64 == 63 - square;
    UShrAt(0x0080808080808080, 63 - square, t);
    FileColumnsAt(t + 63 - square);
    SameFile(t, square, 63);
  }

  lemma NorthRayAt(square: int, t: nat)
    requires IsSquare(square)
    ensures BitOf(NorthRay(square), t) <==> IsSquare(t) && File(t) == File(square) && t > square
  {
    assert square % 64 == square;
    UShlAt(0x0101010101010100, square, t);
    if t >= square {
      FileColumnsAt(t - square);
      SameFile(t, square, 0);
    }
  }

  /** `t + k - square` leaves the remainder `k % 8` modulo 8 exactly when `t` and `square`
      share a file. */
  lemma SameFile(t: nat, square: int, k: int)
    requires IsSquare(square) && 0 <= k < 64 && t + k - square >= 0
    ensures (t + k - square) % 8 == k % 8 <==> File(t) == File(square)
  {
    Coords(t);
    Coords(square);
    var x := t + k - square;
    DivUnique(x, 8, x / 8, x % 8);
  }

  /** `(1UL << hi) - (1UL << lo)` holds the squares from `lo` up to, but not including, `hi`. */
  lemma RangeBits(lo: int, hi: int, t: nat)
    requires 0 <= lo <= hi < 64
    ensures USub(UShl(1, hi), UShl(1, lo)) < Pow2(63)
    ensures BitOf(USub(UShl(1, hi), UShl(1, lo)), t) <==> lo <= t < hi
  {
    RangeValue(lo, hi);
    BitOfRange(lo, hi, t);
  }

  lemma RangeValue(lo: int, hi: int)
    requires 0 <= lo <= hi < 64
    ensures Pow2(lo) <= Pow2(hi) < Two64
    ensures USub(UShl(1, hi), UShl(1, lo)) == Pow2(hi) - Pow2(lo) < Pow2(63)
  {
    SingleSquare(hi);
    SingleSquare(lo);
    if lo < hi {
      Pow2Mono(lo, hi);
    }
    USubExact(Pow2(hi), Pow2(lo));
    if hi < 63 {
      Pow2Mono(hi, 63);
    }
  }

  lemma WestRayAt(square: int, t: nat)
    requires IsSquare(square)
    ensures BitOf(WestRay(square), t) <==> IsSquare(t) && Rank(t) == Rank(square) && t < square
  {
    SquareArithmetic(square);
    RangeBits(8 * Rank(square), square, t);
    SameRank(square, t);
  }

  lemma EastRayAt(square: int, t: nat)
    requires IsSquare(square)
    ensures BitOf(EastRay(square), t) <==> IsSquare(t) && Rank(t) == Rank(square) && t > square
  {
    SquareArithmetic(square);
    var hi := 8 * Rank(square) + 7;
    assert EastRay(square) == UMul(2, USub(UShl(1, hi), UShl(1, square)));
    DoubledRangeBits(square, hi, t);
    SameRank(square, t);
  }

  /** Doubling the squares from `lo` below `hi` gives those above `lo` up to `hi`. */
  lemma DoubledRangeBits(lo: int, hi: int, t: nat)
    requires 0 <= lo <= hi < 64
    ensures BitOf(UMul(2, USub(UShl(1, hi), UShl(1, lo))), t) <==> lo < t <= hi
  {
    RangeBits(lo, hi, if t >= 1 then t - 1 else 0);
    DoubledRangeAt(USub(UShl(1, hi), UShl(1, lo)), lo, hi, t);
  }

  /** Doubling the squares from `lo` below `hi` gives those above `lo` up to `hi`. */
  lemma DoubledRangeAt(x: ulong, lo: int, hi: int, t: nat)
    requires x < Pow2(63) && 0 <= lo
    requires t >= 1 ==> (BitOf(x, t - 1) <==> lo <= t - 1 < hi)
    ensures BitOf(UMul(2, x), t) <==> lo < t <= hi
  {
    DoubleAt(x, t);
  }

  /** The squares of `square`'s rank are those from its first to its last square. */
  lemma SameRank(square: int, t: nat)
    requires IsSquare(square)
    ensures (IsSquare(t) && Rank(t) == Rank(square)) <==> 8 * Rank(square) <= t <= 8 * Rank(square) + 7
  {
    Coords(square);
    Coords(t);
  }

  /** Doubling a bitboard below 2^63 moves every square up by one. */
  lemma DoubleAt(x: ulong, t: nat)
    requires x < Pow2(63)
    ensures BitOf(UMul(2, x), t) <==> t >= 1 && BitOf(x, t - 1)
  {
    Pow2Add(1, 63);
    Pow64();
    DivUnique(2 * x, Two64, 0, 2 * x);
    assert Pow2(1) == 2;
    BitOfMul(x, 1, t);
  }

  /** What the branch-free shift amounts come to: the line is shifted down by `d` when `d` is
      positive and up by `-d` when it is negative. */
  lemma ShiftedLineIs(line: ulong, d: int32)
    requires -64 < d < 64
    ensures ShiftedLine(line, d) == UShl(UShr(line, if d > 0 then d as int else 0), if d < 0 then -(d as int) else 0)
  {
    BranchFree(d);
  }

  lemma DiagonalShift(square: int)
    requires IsSquare(square)
    ensures var k := 8 * (File(square) - Rank(square));
      Diagonal(square) == UShl(UShr(0x8040201008040201, if k > 0 then k else 0), if k < 0 then -k else 0)
  {
    SquareArithmetic(square);
    var k := 8 * (File(square) - Rank(square));
    assert 8 * And(square as int32, 7) as int - And(square as int32, 56) as int == k;
    ShiftedLineIs(0x8040201008040201, k as int32);
  }

  lemma AntiDiagonalShift(square: int)
    requires IsSquare(square)
    ensures var k := 8 * (7 - File(square) - Rank(square));
      AntiDiagonal(square) == UShl(UShr(0x0102040810204080, if k > 0 then k else 0), if k < 0 then -k else 0)
  {
    SquareArithmetic(square);
    var k := 8 * (7 - File(square) - Rank(square));
    assert 56 - 8 * And(square as int32, 7) as int - And(square as int32, 56) as int == k;
    ShiftedLineIs(0x0102040810204080, k as int32);
  }

  /** Shifting a line down by `k` (up by `-k` when `k` is negative) moves each of its squares
      by `-k`, dropping those that leave the board. */
  lemma ShiftedLineAt(c: ulong, k: int, t: nat)
    requires -64 < k < 64
    ensures BitOf(UShl(UShr(c, if k > 0 then k else 0), if k < 0 then -k else 0), t) <==>
      t < 64 && t + k >= 0 && BitOf(c, t + k)
  {
    var s, n := if k > 0 then k else 0, if k < 0 then -k else 0;
    assert s % 64 == s && n % 64 == n;
    UShlAt(UShr(c, s), n, t);
    if t >= n {
      UShrAt(c, s, t - n);
    }
  }

  lemma LineConstantsAt(x: nat)
    ensures BitOf(0x8040201008040201, x) <==> x % 9 == 0 && x / 9 < 8
    ensures BitOf(0x0102040810204080, x) <==> x >= 7 && (x - 7) % 7 == 0 && (x - 7) / 7 < 8
  {
    assert 0x8040201008040201 == Stride(9, 8);
    StrideAt(9, 8, x);
    assert 0x0102040810204080 == Stride(7, 8) * Pow2(7);
    BitOfMul(Stride(7, 8), 7, x);
    if x >= 7 {
      StrideAt(7, 8, x - 7);
    }
  }

  /** `t + k` is on the main diagonal exactly when `t` is on the diagonal `k / 8` files to the
      right of it. */
  lemma DiagonalGeometry(t: nat, j: int)
    requires IsSquare(t) && -8 < j < 8
    ensures (t + 8 * j >= 0 && (t + 8 * j) % 9 == 0 && (t + 8 * j) / 9 < 8) <==> File(t) - Rank(t) == j
  {
    Coords(t);
    var x := t + 8 * j;
    if File(t) - Rank(t) == j {
      DivUnique(x, 9, File(t), 0);
    } else if x >= 0 && x % 9 == 0 && x / 9 < 8 {
      var m := x / 9;
      DivUnique(x, 8, m, m);
      DivUnique(x, 8, Rank(t) + j, File(t));
    }
  }

  lemma AntiDiagonalGeometry(t: nat, j: int)
    requires IsSquare(t) && -8 < j < 8
    ensures (t + 8 * j >= 7 && (t + 8 * j - 7) % 7 == 0 && (t + 8 * j - 7) / 7 < 8) <==> File(t) + Rank(t) == 7 - j
  {
    Coords(t);
    var x := t + 8 * j;
    if File(t) + Rank(t) == 7 - j {
      DivUnique(x - 7, 7, 7 - File(t), 0);
    } else if x >= 7 && (x - 7) % 7 == 0 && (x - 7) / 7 < 8 {
      var m := 7 - (x - 7) / 7;
      assert x == 8 * (7 - m) + m;
      DivUnique(x, 8, 7 - m, m);
      DivUnique(x, 8, Rank(t) + j, File(t));
    }
  }

  /** The main diagonal shifted by `8 * j` holds the squares whose file minus rank is `j`. */
  lemma DiagonalLine(line: ulong, j: int, t: nat)
    requires -8 < j < 8
    requires line == UShl(UShr(0x8040201008040201, if 8 * j > 0 then 8 * j else 0), if 8 * j < 0 then -8 * j else 0)
    ensures BitOf(line, t) <==> IsSquare(t) && File(t) - Rank(t) == j
  {
    ShiftedLineAt(0x8040201008040201, 8 * j, t);
    if t < 64 && t + 8 * j >= 0 {
      LineConstantsAt(t + 8 * j);
      DiagonalGeometry(t, j);
    }
  }

  /** The anti-diagonal shifted by `8 * j` holds the squares whose file plus rank is `7 - j`. */
  lemma AntiDiagonalLine(line: ulong, j: int, t: nat)
    requires -8 < j < 8
    requires line == UShl(UShr(0x0102040810204080, if 8 * j > 0 then 8 * j else 0), if 8 * j < 0 then -8 * j else 0)
    ensures BitOf(line, t) <==> IsSquare(t) && File(t) + Rank(t) == 7 - j
  {
    ShiftedLineAt(0x0102040810204080, 8 * j, t);
    if t < 64 && t + 8 * j >= 0 {
      LineConstantsAt(t + 8 * j);
      AntiDiagonalGeometry(t, j);
    }
  }

  /** The diagonal through `square` holds the squares whose file minus rank is the same. */
  lemma DiagonalAt(square: int, t: nat)
    requires IsSquare(square)
    ensures BitOf(Diagonal(square), t) <==> IsSquare(t) && File(t) - Rank(t) == File(square) - Rank(square)
  {
    DiagonalShift(square);
    DiagonalLine(Diagonal(square), File(square) - Rank(square), t);
  }

  /** The anti-diagonal through `square` holds the squares whose file plus rank is the same. */
  lemma AntiDiagonalAt(square: int, t: nat)
    requires IsSquare(square)
    ensures BitOf(AntiDiagonal(square), t) <==> IsSquare(t) && File(t) + Rank(t) == File(square) + Rank(square)
  {
    AntiDiagonalShift(square);
    AntiDiagonalLine(AntiDiagonal(square), 7 - File(square) - Rank(square), t);
  }

  lemma UpperBitsAt(square: int, t: nat)
    requires IsSquare(square)
    ensures BitOf(UpperBits(square), t) <==> IsSquare(t) && t > square
  {
    assert square % 64 == square;
    UShlAt(UNot(1), square, t);
    if t >= square {
      UNotAt(1, t - square);
      OneBits();
    }
  }

  lemma LowerBitsAt(square: int, t: nat)
    requires IsSquare(square)
    ensures BitOf(LowerBits(square), t) <==> IsSquare(t) && t < square
  {
    SingleSquare(square);
    DivUnique(Pow2(square) - 1, Two64, 0, Pow2(square) - 1);
    BitOfLowMask(square, t);
  }

  /** `RayPatterns[square][direction]` holds exactly the squares on the ray from `square` in
      `direction`, up to the edge of the board and without `square` itself. */
  lemma RayExact(square: int, direction: int, t: nat)
    requires IsSquare(square) && 0 <= direction < 8
    ensures BitOf(RayPattern(square, direction), t) <==> OnRay(square, direction, t)
  {
    if direction < 4 {
      StraightRayExact(square, direction, t);
    } else {
      DiagonalRayExact(square, direction, t);
    }
  }

  lemma StraightRayExact(square: int, direction: int, t: nat)
    requires IsSquare(square) && 0 <= direction < 4
    ensures BitOf(RayPattern(square, direction), t) <==> OnRay(square, direction, t)
  {
    if direction == 0 {
      assert RayPattern(square, 0) == SouthRay(square);
      SouthRayAt(square, t);
      OnRayStraight(square, 0, t);
    } else if direction == 1 {
      assert RayPattern(square, 1) == NorthRay(square);
      NorthRayAt(square, t);
      OnRayStraight(square, 1, t);
    } else if direction == 2 {
      assert RayPattern(square, 2) == WestRay(square);
      WestRayAt(square, t);
      OnRayStraight(square, 2, t);
    } else {
      assert RayPattern(square, 3) == EastRay(square);
      EastRayAt(square, t);
      OnRayStraight(square, 3, t);
    }
  }

  /** The straight rays in coordinates: along the file for S and N, along the rank for W and E. */
  lemma OnRayStraight(square: int, direction: int, t: nat)
    requires IsSquare(square) && 0 <= direction < 4
    ensures OnRay(square, direction, t) <==>
      (IsSquare(t) &&
       (if direction < 2 then File(t) == File(square) else Rank(t) == Rank(square)) &&
       (if direction % 2 == 0 then t < square else t > square))
  {
    Coords(square);
    Coords(t);
  }

  /** The diagonal rays in coordinates: SW and NE keep file minus rank, SE and NW keep file
      plus rank. */
  lemma OnRayDiagonal(square: int, direction: int, t: nat)
    requires IsSquare(square) && 4 <= direction < 8
    ensures OnRay(square, direction, t) <==>
      (IsSquare(t) &&
       (if direction < 6 then File(t) - Rank(t) == File(square) - Rank(square)
        else File(t) + Rank(t) == File(square) + Rank(square)) &&
       (if direction % 2 == 0 then t < square else t > square))
  {
    Coords(square);
    Coords(t);
  }

  lemma DiagonalRayExact(square: int, direction: int, t: nat)
    requires IsSquare(square) && 4 <= direction < 8
    ensures BitOf(RayPattern(square, direction), t) <==> OnRay(square, direction, t)
  {
    DiagonalAt(square, t);
    AntiDiagonalAt(square, t);
    LowerBitsAt(square, t);
    UpperBitsAt(square, t);
    if direction == 4 {
      assert RayPattern(square, 4) == UAnd(Diagonal(square), LowerBits(square));
      HalfLineExact(square, 4, Diagonal(square), LowerBits(square), t);
    } else if direction == 5 {
      assert RayPattern(square, 5) == UAnd(Diagonal(square), UpperBits(square));
      HalfLineExact(square, 5, Diagonal(square), UpperBits(square), t);
    } else if direction == 6 {
      assert RayPattern(square, 6) == UAnd(AntiDiagonal(square), LowerBits(square));
      HalfLineExact(square, 6, AntiDiagonal(square), LowerBits(square), t);
    } else {
      assert RayPattern(square, 7) == UAnd(AntiDiagonal(square), UpperBits(square));
      HalfLineExact(square, 7, AntiDiagonal(square), UpperBits(square), t);
    }
  }

  /** A diagonal line cut at `square`, in coordinates. */
  lemma HalfLineExact(square: int, direction: int, line: ulong, half: ulong, t: nat)
    requires IsSquare(square) && 4 <= direction < 8
    requires BitOf(line, t) <==>
      (IsSquare(t) &&
       (if direction < 6 then File(t) - Rank(t) == File(square) - Rank(square)
        else File(t) + Rank(t) == File(square) + Rank(square)))
    requires BitOf(half, t) <==> IsSquare(t) && (if direction % 2 == 0 then t < square else t > square)
    ensures BitOf(UAnd(line, half), t) <==> OnRay(square, direction, t)
  {
    AndBitAt(line, half, t);
    OnRayDiagonal(square, direction, t);
  }

  /** The rays of the odd directions (N, E, NE, NW) run to higher squares, those of the even
      directions to lower ones. */
  lemma RayOrder(square: int, direction: int, t: int)
    requires 0 <= direction < 8 && OnRay(square, direction, t)
    ensures (direction % 2 == 1) <==> t > square
  {
    if direction < 4 {
      OnRayStraight(square, direction, t);
    } else {
      OnRayDiagonal(square, direction, t);
    }
  }

  /** The ray from a square `b` on the ray from `square` is the part of that ray beyond `b`:
      it is what the source removes with `^` to stop a slider at its first blocker. */
  lemma RayNesting(square: int, direction: int, b: int, t: int)
    requires 0 <= direction < 8 && OnRay(square, direction, b)
    ensures OnRay(b, direction, t) <==>
      (OnRay(square, direction, t) && (if direction % 2 == 1 then t > b else t < b))
  {
    Coords(square);
    Coords(b);
    if t >= 0 {
      if direction < 4 {
        OnRayStraight(square, direction, b);
        OnRayStraight(square, direction, t);
        OnRayStraight(b, direction, t);
      } else {
        OnRayDiagonal(square, direction, b);
        OnRayDiagonal(square, direction, t);
        OnRayDiagonal(b, direction, t);
      }
      Coords(t);
    }
  }

  // ------------------------------------------------------------ the tables

  /** `PawnPushPatterns[square]`, indexed by colour index. */
  function PawnPushes(square: int): (r: seq<ulong>)
    requires IsSquare(square)
    ensures |r| == 2
  {
    [PawnPushPattern(square, 0), PawnPushPattern(square, 1)]
  }

  /** `PawnCapturePatterns[square]`, indexed by colour index. */
  function PawnCaptures(square: int): (r: seq<ulong>)
    requires IsSquare(square)
    ensures |r| == 2
  {
    [PawnCapturePattern(square, 0), PawnCapturePattern(square, 1)]
  }

  /** A row of `PawnPushPatterns`: per colour index, exactly the push square. */
  ghost predicate PushRow(square: int, row: seq<ulong>) {
    |row| == 2 && forall c, t: nat {:trigger BitOf(row[c], t)} | 0 <= c < 2 :: BitOf(row[c], t) <==> PawnPush(square, c, t)
  }

  /** A row of `PawnCapturePatterns`: per colour index, exactly the attacked squares. */
  ghost predicate CaptureRow(square: int, row: seq<ulong>) {
    |row| == 2 && forall c, t: nat {:trigger BitOf(row[c], t)} | 0 <= c < 2 :: BitOf(row[c], t) <==> PawnAttack(square, c, t)
  }

  /** A row of `RayPatterns`: per direction, exactly the squares on the ray. */
  ghost predicate RayRow(square: int, row: seq<ulong>)
    requires IsSquare(square)
  {
    |row| == 8 && forall d, t: nat {:trigger BitOf(row[d], t)} | 0 <= d < 8 :: BitOf(row[d], t) <==> OnRay(square, d, t)
  }

  /** The rows the static constructor computes have the meaning the tables promise. */
  lemma PushRowHolds(square: int)
    requires IsSquare(square)
    ensures PushRow(square, PawnPushes(square))
  {
    forall c, t: nat | 0 <= c < 2
      ensures BitOf(PawnPushes(square)[c], t) <==> PawnPush(square, c, t)
    {
      PawnPushExact(square, c, t);
    }
  }

  lemma CaptureRowHolds(square: int)
    requires IsSquare(square)
    ensures CaptureRow(square, PawnCaptures(square))
  {
    forall c, t: nat | 0 <= c < 2
      ensures BitOf(PawnCaptures(square)[c], t) <==> PawnAttack(square, c, t)
    {
      PawnCaptureExact(square, c, t);
    }
  }

  lemma RayRowHolds(square: int)
    requires IsSquare(square)
    ensures RayRow(square, Rays(square))
  {
    forall d, t: nat | 0 <= d < 8
      ensures BitOf(Rays(square)[d], t) <==> OnRay(square, d, t)
    {
      RayExact(square, d, t);
    }
  }

  lemma KingHolds(square: int)
    requires IsSquare(square)
    ensures forall t: nat :: BitOf(KingPattern(square), t) <==> KingStep(square, t)
  {
    forall t: nat
      ensures BitOf(KingPattern(square), t) <==> KingStep(square, t)
    {
      KingExact(square, t);
    }
  }

  lemma KnightHolds(square: int)
    requires IsSquare(square)
    ensures forall t: nat :: BitOf(KnightPattern(square), t) <==> KnightJump(square, t)
  {
    forall t: nat
      ensures BitOf(KnightPattern(square), t) <==> KnightJump(square, t)
    {
      KnightExact(square, t);
    }
  }

  /** The tables of the static constructor, read-only once it has filled them. The jagged
      tables hold one row per square, indexed by colour index or by direction. */
  class Tables {
    const PawnPushPatterns: seq<seq<ulong>>
    const PawnCapturePatterns: seq<seq<ulong>>
    const KingPatterns: seq<ulong>
    const KnightPatterns: seq<ulong>
    const RayPatterns: seq<seq<ulong>>

    /** Every entry holds exactly the squares its move set names. */
    ghost predicate Valid() {
      |PawnPushPatterns| == 64 && |PawnCapturePatterns| == 64 &&
      |KingPatterns| == 64 && |KnightPatterns| == 64 && |RayPatterns| == 64 &&
      (forall s | 0 <= s < 64 ::
        PushRow(s, PawnPushPatterns[s]) && CaptureRow(s, PawnCapturePatterns[s]) && RayRow(s, RayPatterns[s])) &&
      (forall s, t: nat {:trigger BitOf(KingPatterns[s], t)} | 0 <= s < 64 :: BitOf(KingPatterns[s], t) <==> KingStep(s, t)) &&
      (forall s, t: nat {:trigger BitOf(KnightPatterns[s], t)} | 0 <= s < 64 :: BitOf(KnightPatterns[s], t) <==> KnightJump(s, t))
    }

    /** The static constructor: one pass over the 64 squares, filling the five arrays. */
    constructor ()
      ensures Valid()
    {
      var pushes := new seq<ulong>[64];
      var captures := new seq<ulong>[64];
      var kings := new ulong[64];
      var knights := new ulong[64];
      var rays := new seq<ulong>[64];
      var square := 0;
      while square < 64
        invariant 0 <= square <= 64
        invariant forall s | 0 <= s < square :: PushRow(s, pushes[s]) && CaptureRow(s, captures[s]) && RayRow(s, rays[s])
        invariant forall s, t: nat | 0 <= s < square :: BitOf(kings[s], t) <==> KingStep(s, t)
        invariant forall s, t: nat | 0 <= s < square :: BitOf(knights[s], t) <==> KnightJump(s, t)
      {
        FillSquare(square, pushes, captures, kings, knights, rays);
        square := square + 1;
      }
      PawnPushPatterns, PawnCapturePatterns := pushes[..], captures[..];
      KingPatterns, KnightPatterns, RayPatterns := kings[..], knights[..], rays[..];
    }
  }

  /** The body of the static constructor's loop: the row of every table for one square. */
  method FillSquare(square: int, pushes: array<seq<ulong>>, captures: array<seq<ulong>>,
                    kings: array<ulong>, knights: array<ulong>, rays: array<seq<ulong>>)
    requires IsSquare(square)
    requires pushes.Length == 64 && captures.Length == 64 && rays.Length == 64
    requires kings.Length == 64 && knights.Length == 64
    requires pushes != captures && pushes != rays && captures != rays && kings != knights
    modifies pushes, captures, kings, knights, rays
    ensures PushRow(square, pushes[square]) && CaptureRow(square, captures[square])
    ensures forall t: nat :: BitOf(kings[square], t) <==> KingStep(square, t)
    ensures forall t: nat :: BitOf(knights[square], t) <==> KnightJump(square, t)
    ensures RayRow(square, rays[square])
    ensures pushes[..] == old(pushes[..])[square := pushes[square]]
    ensures captures[..] == old(captures[..])[square := captures[square]]
    ensures kings[..] == old(kings[..])[square := kings[square]]
    ensures knights[..] == old(knights[..])[square := knights[square]]
    ensures rays[..] == old(rays[..])[square := rays[square]]
  {
    pushes[square] := PawnPushes(square);
    captures[square] := PawnCaptures(square);
    kings[square] := KingPattern(square);
    knights[square] := KnightPattern(square);
    rays[square] := Rays(square);
    PushRowHolds(square);
    CaptureRowHolds(square);
    KingHolds(square);
    KnightHolds(square);
    RayRowHolds(square);
  }
}
