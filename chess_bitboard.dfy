// The 64-bit set helpers of the chess engine (ConsoleApp/Chess/Bitboard.cs).
//
// A bitboard is a C# `ulong`; bit `i` (`BitOf(b, i)`) stands for square `i`
// (a1 = 0, h1 = 7, a8 = 56, h8 = 63).

module Bitboard {
  import opened CSharp
  import opened ULong

  predicate IsSquare(i: int) { 0 <= i < 64 }

  /** The source's table of one-square boards, laid out eight to a row as there. */
  const Bits: seq<ulong> :=
    [1, 2, 4, 8, 16, 32, 64, 128] +
    [256, 512, 1024, 2048, 4096, 8192, 16384, 32768] +
    [65536, 131072, 262144, 524288, 1048576, 2097152, 4194304, 8388608] +
    [16777216, 33554432, 67108864, 134217728, 268435456, 536870912, 1073741824, 2147483648] +
    [4294967296, 8589934592, 17179869184, 34359738368, 68719476736, 137438953472, 274877906944, 549755813888] +
    [1099511627776, 2199023255552, 4398046511104, 8796093022208, 17592186044416, 35184372088832, 70368744177664, 140737488355328] +
    [281474976710656, 562949953421312, 1125899906842624, 2251799813685248, 4503599627370496, 9007199254740992, 18014398509481984, 36028797018963968] +
    [72057594037927936, 144115188075855872, 288230376151711744, 576460752303423488, 1152921504606846976, 2305843009213693952, 4611686018427387904, 9223372036854775808]

  // ------------------------------------------------------------ the table

  lemma BitsStep(i: int)
    requires 0 <= i < 63
    ensures Bits[i + 1] == 2 * Bits[i]
  {
    assert |Bits| == 64;
    assert i == 0 || i == 1 || i == 2 || i == 3 || i == 4 || i == 5 || i == 6 || i == 7 ||
           i == 8 || i == 9 || i == 10 || i == 11 || i == 12 || i == 13 || i == 14 || i == 15 ||
           i == 16 || i == 17 || i == 18 || i == 19 || i == 20 || i == 21 || i == 22 || i == 23 ||
           i == 24 || i == 25 || i == 26 || i == 27 || i == 28 || i == 29 || i == 30 || i == 31 ||
           i == 32 || i == 33 || i == 34 || i == 35 || i == 36 || i == 37 || i == 38 || i == 39 ||
           i == 40 || i == 41 || i == 42 || i == 43 || i == 44 || i == 45 || i == 46 || i == 47 ||
           i == 48 || i == 49 || i == 50 || i == 51 || i == 52 || i == 53 || i == 54 || i == 55 ||
           i == 56 || i == 57 || i == 58 || i == 59 || i == 60 || i == 61 || i == 62;
  }

  /** Entry `i` of the table is 2^i (`SingleSquare` shows it is `1UL << i`). */
  lemma {:induction false} BitsTable(i: int)
    requires IsSquare(i)
    ensures Bits[i] == Pow2(i)
  {
    if i > 0 {
      BitsTable(i - 1);
      BitsStep(i - 1);
    } else {
      assert |Bits| == 64;
    }
  }

  /** 2^i is C#'s `1UL << i`: the board holding square `i` alone. */
  lemma SingleSquare(i: int)
    requires IsSquare(i)
    ensures Pow2(i) == UShl(1, i)
    ensures forall k: nat :: BitOf(Pow2(i), k) <==> k == i
  {
    SingleShift(i);
    forall k: nat
      ensures BitOf(Pow2(i), k) <==> k == i
    {
      BitOfPow2(i, k);
    }
  }

  lemma SingleShift(i: int)
    requires IsSquare(i)
    ensures Pow2(i) == UShl(1, i)
  {
    DivUnique(i, 64, 0, i);
    UPow2(i);
    var x := Pow2(i);
    assert 1 * Pow2(i % 64) == x;
    DivUnique(x, Two64, 0, x);
    assert UShl(1, i) == x % Two64;
  }

  // ------------------------------------------------------------ bit scans

  lemma OneBits()
    ensures forall j: nat :: j > 0 ==> !BitOf(1, j)
  {
    forall j: nat | j > 0
      ensures !BitOf(1, j)
    {
      ZeroBits(j - 1);
    }
  }

  /** The position of the lowest digit of a non-zero number. */
  function LowestBit(b: nat): (r: nat)
    requires b != 0
    ensures BitOf(b, r)
    ensures forall j :: 0 <= j < r ==> !BitOf(b, j)
    decreases b
  {
    if b % 2 == 1 then 0 else 1 + LowestBit(b / 2)
  }

  /** The position of the highest digit of a non-zero number. */
  function HighestBit(b: nat): (r: nat)
    requires b != 0
    ensures BitOf(b, r)
    ensures forall j: nat :: j > r ==> !BitOf(b, j)
    decreases b
  {
    if b == 1 then OneBits(); 0 else 1 + HighestBit(b / 2)
  }

  /** `BitOperations.TrailingZeroCount(ulong)`: 64 for zero. */
  function TrailingZeroCount(b: ulong): (r: int)
    ensures 0 <= r <= 64
    ensures r == 64 <==> b == 0
    ensures r < 64 ==> BitOf(b, r) && forall j :: 0 <= j < r ==> !BitOf(b, j)
  {
    if b == 0 then 64
    else
      var r := LowestBit(b);
      assert r < 64 by {
        if r >= 64 {
          UHigh(b, r);
        }
      }
      r
  }

  /** `BitOperations.LeadingZeroCount(ulong)`: 64 for zero. */
  function LeadingZeroCount(b: ulong): (r: int)
    ensures 0 <= r <= 64
    ensures r == 64 <==> b == 0
    ensures r < 64 ==> BitOf(b, 63 - r) && forall j: nat :: j > 63 - r ==> !BitOf(b, j)
  {
    if b == 0 then 64
    else
      var h := HighestBit(b);
      assert h < 64 by {
        if h >= 64 {
          UHigh(b, h);
        }
      }
      63 - h
  }

  /** `BitScanForward`: -1 for the empty board, otherwise the lowest square in it. */
  function BitScanForward(b: ulong): (r: int)
    ensures b == 0 ==> r == -1
    ensures b != 0 ==> IsSquare(r) && BitOf(b, r) && forall j :: 0 <= j < r ==> !BitOf(b, j)
  {
    if b == 0 then -1 else TrailingZeroCount(b)
  }

  /** `BitScanReverse`: -1 for the empty board, otherwise the highest square in it.
      The source computes the index as `LeadingZeroCount ^ 63`. */
  function BitScanReverse(b: ulong): (r: int)
    ensures b == 0 ==> r == -1
    ensures b != 0 ==> IsSquare(r) && BitOf(b, r) && forall j: nat :: j > r ==> !BitOf(b, j)
  {
    if b == 0 then -1 else
      var z := LeadingZeroCount(b);
      XorSixtyThree(z as int32);
      Xor(z as int32, 63) as int
  }

  /** For an index `x` in 0..63, `x ^ 63` is `63 - x`. */
  lemma XorSixtyThree(x: int32)
    requires 0 <= x < 64
    ensures Xor(x, 63) as int == 63 - x as int
  {
    assert Pow2(6) == 64;
    XorBitsLowMask(x as int, 6);
  }

  // ------------------------------------------------- updates of a ref ulong

  /** `Set(ref bitboard, index)`: the new value of `bitboard`. */
  function Set(b: ulong, index: int): ulong
    requires IsSquare(index)
  {
    UOr(b, Bits[index])
  }

  /** `Toggle(ref bitboard, index)`: the new value of `bitboard`. */
  function Toggle(b: ulong, index: int): ulong
    requires IsSquare(index)
  {
    UXor(b, Bits[index])
  }

  /** `Reset(ref bitboard, index)`: the new value of `bitboard`. */
  function Reset(b: ulong, index: int): ulong
    requires IsSquare(index)
  {
    UAnd(b, UNot(Bits[index]))
  }

  /** Set adds square `index` and keeps every other bit. */
  lemma SetSpec(b: ulong, index: int)
    requires IsSquare(index)
    ensures forall k: nat :: BitOf(Set(b, index), k) <==> k == index || BitOf(b, k)
  {
    BitsTable(index);
    SingleSquare(index);
    forall k: nat
      ensures BitOf(Set(b, index), k) <==> k == index || BitOf(b, k)
    {
      OrBitAt(b, Bits[index], k);
    }
  }

  /** Toggle flips square `index` and keeps every other bit. */
  lemma ToggleSpec(b: ulong, index: int)
    requires IsSquare(index)
    ensures forall k: nat :: BitOf(Toggle(b, index), k) <==> (k == index) != BitOf(b, k)
  {
    BitsTable(index);
    SingleSquare(index);
    forall k: nat
      ensures BitOf(Toggle(b, index), k) <==> (k == index) != BitOf(b, k)
    {
      XorBitAt(b, Bits[index], k);
    }
  }

  /** Reset removes square `index` and keeps every other bit. */
  lemma ResetSpec(b: ulong, index: int)
    requires IsSquare(index)
    ensures forall k: nat :: BitOf(Reset(b, index), k) <==> k != index && BitOf(b, k)
  {
    BitsTable(index);
    SingleSquare(index);
    forall k: nat
      ensures BitOf(Reset(b, index), k) <==> k != index && BitOf(b, k)
    {
      AndBitAt(b, UNot(Bits[index]), k);
      UNotAt(Bits[index], k);
      if k >= 64 {
        UHigh(b, k);
      }
    }
  }

  // ------------------------------------------------------------ enumeration

  /** The squares of `b` from `i` upwards, in ascending order. */
  function SquaresFrom(b: ulong, i: int): seq<int>
    requires 0 <= i <= 64
    decreases 64 - i
  {
    if i == 64 then [] else (if BitOf(b, i) then [i] else []) + SquaresFrom(b, i + 1)
  }

  /** The squares of `b` in ascending order: what `Enumerate` yields. */
  function Squares(b: ulong): seq<int> {
    SquaresFrom(b, 0)
  }

  lemma {:induction false} SquaresFromMembers(b: ulong, i: int)
    requires 0 <= i <= 64
    ensures forall k :: 0 <= k < |SquaresFrom(b, i)| ==> i <= SquaresFrom(b, i)[k] < 64
    ensures forall j :: i <= j < 64 ==> (j in SquaresFrom(b, i) <==> BitOf(b, j))
    ensures forall k, l :: 0 <= k < l < |SquaresFrom(b, i)| ==> SquaresFrom(b, i)[k] < SquaresFrom(b, i)[l]
    decreases 64 - i
  {
    if i < 64 {
      SquaresFromMembers(b, i + 1);
    }
  }

  /** Every square of `b` appears once, and only squares of `b` appear, in ascending order. */
  lemma SquaresExact(b: ulong)
    ensures forall j :: j in Squares(b) <==> IsSquare(j) && BitOf(b, j)
    ensures forall k, l :: 0 <= k < l < |Squares(b)| ==> Squares(b)[k] < Squares(b)[l]
  {
    SquaresFromMembers(b, 0);
  }

  lemma {:induction false} SquaresFromSkip(b: ulong, i: int, k: int)
    requires 0 <= i <= k <= 64
    requires forall j :: i <= j < k ==> !BitOf(b, j)
    ensures SquaresFrom(b, i) == SquaresFrom(b, k)
    decreases k - i
  {
    if i < k {
      SquaresFromSkip(b, i + 1, k);
    }
  }

  lemma {:induction false} SquaresFromAgree(b: ulong, c: ulong, i: int)
    requires 0 <= i <= 64
    requires forall j :: i <= j < 64 ==> BitOf(b, j) == BitOf(c, j)
    ensures SquaresFrom(b, i) == SquaresFrom(c, i)
    decreases 64 - i
  {
    if i < 64 {
      SquaresFromAgree(b, c, i + 1);
    }
  }

  /** `b & (b - 1)` is `b` without its lowest square. */
  lemma {:induction false} ClearLowest(b: nat, j: nat)
    requires b != 0
    ensures BitOf(AndBits(b, b - 1), j) == (BitOf(b, j) && j != LowestBit(b))
    decreases b
  {
    AndBitAt(b, b - 1, j);
    if b % 2 == 1 {
      if j > 0 {
        assert (b - 1) / 2 == b / 2;
      }
    } else if j > 0 {
      assert (b - 1) / 2 == b / 2 - 1;
      ClearLowest(b / 2, j - 1);
      AndBitAt(b / 2, b / 2 - 1, j - 1);
    }
  }

  /** One step of `Enumerate`: the lowest square, then the squares of `b & (b - 1)`. */
  lemma SquaresSplit(b: ulong)
    requires b != 0
    ensures UAnd(b, USub(b, 1)) < b
    ensures Squares(b) == [TrailingZeroCount(b)] + Squares(UAnd(b, USub(b, 1)))
  {
    var r := TrailingZeroCount(b);
    DivUnique(b - 1, Two64, 0, b - 1);
    var c := UAnd(b, USub(b, 1));
    assert c == AndBits(b, b - 1);
    AndBitsBound(b, b - 1);
    forall j: nat
      ensures BitOf(c, j) == (BitOf(b, j) && j != r)
    {
      ClearLowest(b, j);
    }
    SquaresFromSkip(b, 0, r);
    SquaresFromSkip(c, 0, r + 1);
    SquaresFromAgree(b, c, r + 1);
  }

  lemma SquaresEmpty()
    ensures Squares(0) == []
  {
    forall j | 0 <= j < 64
      ensures !BitOf(0, j)
    {
      ZeroBits(j);
    }
    SquaresFromSkip(0, 0, 64);
  }

  /** `Enumerate(bitboard)`: the squares of the board, lowest first, each cleared with
      `bitboard &= bitboard - 1` once it is yielded. */
  method Enumerate(bitboard: ulong) returns (positions: seq<int>)
    ensures positions == Squares(bitboard)
  {
    var bb := bitboard;
    positions := [];
    while bb > 0
      invariant positions + Squares(bb) == Squares(bitboard)
      decreases bb
    {
      var position := BitScanForward(bb);
      SquaresSplit(bb);
      bb := UAnd(bb, USub(bb, 1));
      positions := positions + [position];
    }
    SquaresEmpty();
  }
}
