// ConsoleApp/TicTacToe/TicTacToe.cs: a tic-tac-toe game packed into one `int`. Square `k`
// (0..8, row by row) holds two bits at 2k..2k+1 (0 empty, 1 for X, 2 for O) and bit 18 is
// the player to move (0 for X, 1 for O).
//
// The game keeps the `int` only; the ghost fields `squares` and `turn` are what it encodes,
// and `Valid` ties the two together.

module TicTacToe {
  import opened CSharp
  import ULong

  const PlayerOneMask: int32 := 0x15  // 0b010101
  const PlayerTwoMask: int32 := 0x2A  // 0b101010

  // ------------------------------------------------------------------ packing

  /** 4^k, the weight of digit `k`: `1 << (2 * k)`. */
  function Place(k: nat): (p: int)
    ensures p >= 1
  {
    if k == 0 then 1 else 4 * Place(k - 1)
  }

  lemma {:induction false} PlaceIsPow2(k: nat)
    ensures Pow2(2 * k) == Place(k)
  {
    if k > 0 {
      PlaceIsPow2(k - 1);
      assert Pow2(2 * k) == 2 * Pow2(2 * k - 1) == 4 * Pow2(2 * (k - 1));
    }
  }

  lemma Places()
    ensures Place(0) == 1 && Place(1) == 4 && Place(2) == 16 && Place(3) == 64 && Place(4) == 256
    ensures Place(5) == 1024 && Place(6) == 4096 && Place(7) == 16384 && Place(8) == 65536
    ensures Place(9) == 0x4_0000
  {
    assert Place(1) == 4;
    assert Place(2) == 16;
    assert Place(3) == 64;
    assert Place(4) == 256;
    assert Place(5) == 1024;
    assert Place(6) == 4096;
    assert Place(7) == 16384;
    assert Place(8) == 65536;
  }

  /** The number whose base-4 digits from position `k` on are `squares[k..]`, followed by
      the turn: `Value >> (2 * k)`. */
  function Above(squares: seq<int>, turn: int, k: nat): int
    requires |squares| == 9 && k <= 9
    decreases 9 - k
  {
    if k == 9 then turn else squares[k] + 4 * Above(squares, turn, k + 1)
  }

  /** Nine squares, each empty (0), X (1) or O (2). */
  predicate Marks(squares: seq<int>) {
    |squares| == 9 && forall k | 0 <= k < 9 :: 0 <= squares[k] <= 2
  }

  /** Written out, the digits from every position on are a sum of digits times their
      weights. */
  lemma Forms(s: seq<int>, t: int)
    requires |s| == 9
    ensures Above(s, t, 8) == s[8] + 4 * t
    ensures Above(s, t, 7) == s[7] + 4 * s[8] + 16 * t
    ensures Above(s, t, 6) == s[6] + 4 * s[7] + 16 * s[8] + 64 * t
    ensures Above(s, t, 5) == s[5] + 4 * s[6] + 16 * s[7] + 64 * s[8] + 256 * t
    ensures Above(s, t, 4) == s[4] + 4 * s[5] + 16 * s[6] + 64 * s[7] + 256 * s[8] + 1024 * t
    ensures Above(s, t, 3) == s[3] + 4 * s[4] + 16 * s[5] + 64 * s[6] + 256 * s[7] + 1024 * s[8] + 4096 * t
    ensures Above(s, t, 2) == s[2] + 4 * s[3] + 16 * s[4] + 64 * s[5] + 256 * s[6] + 1024 * s[7] + 4096 * s[8] + 16384 * t
    ensures Above(s, t, 1) == s[1] + 4 * s[2] + 16 * s[3] + 64 * s[4] + 256 * s[5] + 1024 * s[6] + 4096 * s[7] + 16384 * s[8] + 65536 * t
    ensures Above(s, t, 0) == s[0] + 4 * s[1] + 16 * s[2] + 64 * s[3] + 256 * s[4] + 1024 * s[5] + 4096 * s[6] + 16384 * s[7] + 65536 * s[8] + 262144 * t
  {
    assert Above(s, t, 8) == s[8] + 4 * t;
    assert Above(s, t, 7) == s[7] + 4 * s[8] + 16 * t;
    assert Above(s, t, 6) == s[6] + 4 * s[7] + 16 * s[8] + 64 * t;
    assert Above(s, t, 5) == s[5] + 4 * s[6] + 16 * s[7] + 64 * s[8] + 256 * t;
    assert Above(s, t, 4) == s[4] + 4 * s[5] + 16 * s[6] + 64 * s[7] + 256 * s[8] + 1024 * t;
    assert Above(s, t, 3) == s[3] + 4 * s[4] + 16 * s[5] + 64 * s[6] + 256 * s[7] + 1024 * s[8] + 4096 * t;
    assert Above(s, t, 2) == s[2] + 4 * s[3] + 16 * s[4] + 64 * s[5] + 256 * s[6] + 1024 * s[7] + 4096 * s[8] + 16384 * t;
    assert Above(s, t, 1) == s[1] + 4 * s[2] + 16 * s[3] + 64 * s[4] + 256 * s[5] + 1024 * s[6] + 4096 * s[7] + 16384 * s[8] + 65536 * t;
  }

  /** Written out, the packed value is a sum of digits times their weights. */
  lemma Expand(s: seq<int>, t: int)
    requires |s| == 9
    ensures Above(s, t, 0) == s[0] + 4 * s[1] + 16 * s[2] + 64 * s[3] + 256 * s[4] + 1024 * s[5] +
      4096 * s[6] + 16384 * s[7] + 65536 * s[8] + 262144 * t
  {
    Forms(s, t);
  }

  /** `Value`: the packed squares and turn. */
  function Pack(squares: seq<int>, turn: int): (v: int32)
    requires Marks(squares) && 0 <= turn <= 1
    ensures v as int == Above(squares, turn, 0) && 0 <= v < 0x8_0000
  {
    Expand(squares, turn);
    Above(squares, turn, 0) as int32
  }

  lemma {:induction false} AboveNonNegative(squares: seq<int>, turn: int, k: nat)
    requires Marks(squares) && 0 <= turn <= 1 && k <= 9
    ensures Above(squares, turn, k) >= 0
    decreases 9 - k
  {
    if k < 9 {
      AboveNonNegative(squares, turn, k + 1);
    }
  }

  /** Each digit position holds one digit and the rest four times over. */
  lemma Peel(s: seq<int>, t: int)
    requires |s| == 9
    ensures Above(s, t, 0) == s[0] + 4 * Above(s, t, 1)
    ensures Above(s, t, 1) == s[1] + 4 * Above(s, t, 2)
    ensures Above(s, t, 2) == s[2] + 4 * Above(s, t, 3)
    ensures Above(s, t, 3) == s[3] + 4 * Above(s, t, 4)
    ensures Above(s, t, 4) == s[4] + 4 * Above(s, t, 5)
    ensures Above(s, t, 5) == s[5] + 4 * Above(s, t, 6)
    ensures Above(s, t, 6) == s[6] + 4 * Above(s, t, 7)
    ensures Above(s, t, 7) == s[7] + 4 * Above(s, t, 8)
    ensures Above(s, t, 8) == s[8] + 4 * Above(s, t, 9)
  {
  }

  /** `Value >> (2 * k)` is the number above digit `k`: below it lie `k` digits, less
      than 4^k together. */
  lemma Shifted(s: seq<int>, t: int, k: nat)
    requires Marks(s) && 0 <= t <= 1 && k <= 9
    ensures ShiftRight(Pack(s, t), 2 * k) as int == Above(s, t, k)
  {
    PlaceIsPow2(k);
    assert 2 * k % 32 == 2 * k;
    if k <= 3 {
      ShiftedLow(s, t, k);
    } else if k <= 6 {
      ShiftedMiddle(s, t, k);
    } else {
      ShiftedHigh(s, t, k);
    }
  }

  lemma ShiftedLow(s: seq<int>, t: int, k: nat)
    requires Marks(s) && 0 <= t <= 1 && 0 <= k <= 3
    ensures Pack(s, t) as int / Place(k) == Above(s, t, k)
  {
    Places();
    Peel(s, t);
    AboveNonNegative(s, t, k);
    match k
      case 0 =>
      case 1 => ULong.DivUnique(Pack(s, t) as int, 4, Above(s, t, 1), s[0]);
      case 2 => ULong.DivUnique(Pack(s, t) as int, 16, Above(s, t, 2), s[0] + 4 * s[1]);
      case 3 => ULong.DivUnique(Pack(s, t) as int, 64, Above(s, t, 3), s[0] + 4 * s[1] + 16 * s[2]);
  }

  lemma ShiftedMiddle(s: seq<int>, t: int, k: nat)
    requires Marks(s) && 0 <= t <= 1 && 4 <= k <= 6
    ensures Pack(s, t) as int / Place(k) == Above(s, t, k)
  {
    Places();
    Peel(s, t);
    AboveNonNegative(s, t, k);
    match k
      case 4 => ULong.DivUnique(Pack(s, t) as int, 256, Above(s, t, 4), s[0] + 4 * s[1] + 16 * s[2] + 64 * s[3]);
      case 5 => ULong.DivUnique(Pack(s, t) as int, 1024, Above(s, t, 5), s[0] + 4 * s[1] + 16 * s[2] + 64 * s[3] + 256 * s[4]);
      case 6 => ULong.DivUnique(Pack(s, t) as int, 4096, Above(s, t, 6), s[0] + 4 * s[1] + 16 * s[2] + 64 * s[3] + 256 * s[4] + 1024 * s[5]);
  }

  lemma ShiftedHigh(s: seq<int>, t: int, k: nat)
    requires Marks(s) && 0 <= t <= 1 && 7 <= k <= 9
    ensures Pack(s, t) as int / Place(k) == Above(s, t, k)
  {
    Places();
    Peel(s, t);
    AboveNonNegative(s, t, k);
    match k
      case 7 => ULong.DivUnique(Pack(s, t) as int, 16384, Above(s, t, 7), s[0] + 4 * s[1] + 16 * s[2] + 64 * s[3] + 256 * s[4] + 1024 * s[5] + 4096 * s[6]);
      case 8 => ULong.DivUnique(Pack(s, t) as int, 65536, Above(s, t, 8), s[0] + 4 * s[1] + 16 * s[2] + 64 * s[3] + 256 * s[4] + 1024 * s[5] + 4096 * s[6] + 16384 * s[7]);
      case 9 => ULong.DivUnique(Pack(s, t) as int, 262144, Above(s, t, 9), s[0] + 4 * s[1] + 16 * s[2] + 64 * s[3] + 256 * s[4] + 1024 * s[5] + 4096 * s[6] + 16384 * s[7] + 65536 * s[8]);
  }

  /** `x & (2^n - 1)` keeps the low part of a non-negative `x` split at 2^n. */
  lemma Masked(x: int32, mask: int32, n: nat, p: int, high: int, low: int)
    requires p == Pow2(n) && mask as int == p - 1
    requires 0 <= low < p && 0 <= high && x as int == p * high + low
    ensures And(x, mask) as int == low
  {
    ULong.DivUnique(x as int, p, high, low);
    ULong.LowMask(x as int, n);
  }

  /** `(Value >> (2 * k)) & 0b11` reads square `k` back. */
  lemma ReadSquare(squares: seq<int>, turn: int, k: nat)
    requires Marks(squares) && 0 <= turn <= 1 && k < 9
    ensures And(ShiftRight(Pack(squares, turn), 2 * k), 3) as int == squares[k]
  {
    Shifted(squares, turn, k);
    AboveNonNegative(squares, turn, k + 1);
    assert Pow2(2) == 4;
    Masked(ShiftRight(Pack(squares, turn), 2 * k), 3, 2, 4, Above(squares, turn, k + 1), squares[k]);
  }

  /** `(Value >> (6 * i)) & 0b111111` is row `i`'s three squares packed. */
  lemma ReadRow(squares: seq<int>, turn: int, i: nat)
    requires Marks(squares) && 0 <= turn <= 1 && i < 3
    ensures And(ShiftRight(Pack(squares, turn), 6 * i), 0x3F) as int ==
      squares[3 * i] + 4 * squares[3 * i + 1] + 16 * squares[3 * i + 2]
  {
    var k := 3 * i;
    assert 6 * i == 2 * k;
    Shifted(squares, turn, k);
    AboveNonNegative(squares, turn, k + 3);
    ThreeDigits(squares, turn, k);
    PlaceIsPow2(3);
    Places();
    Masked(ShiftRight(Pack(squares, turn), 2 * k), 0x3F, 6, 64, Above(squares, turn, k + 3),
      squares[k] + 4 * squares[k + 1] + 16 * squares[k + 2]);
  }

  lemma ThreeDigits(squares: seq<int>, turn: int, k: nat)
    requires |squares| == 9 && k + 3 <= 9
    ensures Above(squares, turn, k) ==
      squares[k] + 4 * squares[k + 1] + 16 * squares[k + 2] + 64 * Above(squares, turn, k + 3)
  {
    assert Above(squares, turn, k + 1) == squares[k + 1] + 4 * Above(squares, turn, k + 2);
    assert Above(squares, turn, k + 2) == squares[k + 2] + 4 * Above(squares, turn, k + 3);
  }

  /** Writing a mark into an empty square adds the mark at its digit. */
  lemma Write(squares: seq<int>, turn: int, i: nat, mark: int)
    requires |squares| == 9 && i < 9 && squares[i] == 0
    ensures Above(squares[i := mark], turn, 0) == Above(squares, turn, 0) + mark * Place(i)
  {
    if i <= 4 {
      WriteLow(squares, turn, i, mark);
    } else {
      WriteHigh(squares, turn, i, mark);
    }
  }

  lemma WriteLow(squares: seq<int>, turn: int, i: nat, mark: int)
    requires |squares| == 9 && i <= 4 && squares[i] == 0
    ensures Above(squares[i := mark], turn, 0) == Above(squares, turn, 0) + mark * Place(i)
  {
    Expand(squares, turn);
    Expand(squares[i := mark], turn);
    Places();
    match i
      case 0 =>
      case 1 =>
      case 2 =>
      case 3 =>
      case 4 =>
  }

  lemma WriteHigh(squares: seq<int>, turn: int, i: nat, mark: int)
    requires |squares| == 9 && 5 <= i < 9 && squares[i] == 0
    ensures Above(squares[i := mark], turn, 0) == Above(squares, turn, 0) + mark * Place(i)
  {
    Expand(squares, turn);
    Expand(squares[i := mark], turn);
    Places();
    match i
      case 5 =>
      case 6 =>
      case 7 =>
      case 8 =>
  }

  // ------------------------------------------------------------------- masks

  /** `AndBits` one binary digit at a time. */
  lemma AndStep(a: nat, b: nat)
    ensures AndBits(a, b) == 2 * AndBits(a / 2, b / 2) + (if a % 2 == 1 && b % 2 == 1 then 1 else 0)
  {
  }

  /** `&` of two numbers below 4, digit by digit. */
  lemma AndSmallDigits(a: nat, b: nat)
    requires a < 4 && b < 4
    ensures AndBits(a, b) == (if a % 2 == 1 && b % 2 == 1 then 1 else 0) + 2 * (if a / 2 == 1 && b / 2 == 1 then 1 else 0)
  {
    AndStep(a, b);
    AndStep(a / 2, b / 2);
    assert AndBits(0, 0) == 0;
  }

  /** Halving a number written with a base-4 digit `p` below it, twice. */
  lemma Halves(u: nat, p: nat, q: nat)
    requires p < 4 && u == p + 4 * q
    ensures u / 2 == p / 2 + 2 * q && u % 2 == p % 2
    ensures (u / 2) / 2 == q && (u / 2) % 2 == p / 2
  {
    ULong.DivUnique(u, 2, p / 2 + 2 * q, p % 2);
    ULong.DivUnique(p / 2 + 2 * q, 2, q, p / 2);
  }

  /** `&` of two numbers works on their lowest base-4 digit and the rest separately. */
  lemma AndDigit(u: nat, w: nat, p: nat, q: nat, m: nat, n: nat)
    requires p < 4 && m < 4 && u == p + 4 * q && w == m + 4 * n
    ensures AndBits(u, w) == AndBits(p, m) + 4 * AndBits(q, n)
  {
    Halves(u, p, q);
    Halves(w, m, n);
    AndStep(u, w);
    AndStep(u / 2, w / 2);
    AndSmallDigits(p, m);
  }

  /** Three squares packed as `x + 4y + 16z` and masked digit by digit. */
  lemma AndLine(v: nat, mask: nat, x: int, y: int, z: int, m: int)
    requires 0 <= x <= 2 && 0 <= y <= 2 && 0 <= z <= 2 && 0 <= m < 4
    requires v == x + 4 * y + 16 * z && mask == 21 * m
    ensures AndBits(v, mask) == AndBits(x, m) + 4 * AndBits(y, m) + 16 * AndBits(z, m)
  {
    AndDigit(v, mask, x, y + 4 * z, m, 5 * m);
    AndDigit(y + 4 * z, 5 * m, y, z, m, m);
  }

  /** The test of a line with X's mask: every square holds 1. */
  lemma MaskOne(v: int32, x: int, y: int, z: int)
    requires 0 <= x <= 2 && 0 <= y <= 2 && 0 <= z <= 2 && v as int == x + 4 * y + 16 * z
    ensures And(v, PlayerOneMask) == PlayerOneMask <==> x == 1 && y == 1 && z == 1
  {
    AndLine(v as int, 21, x, y, z, 1);
    AndSmallDigits(x, 1);
    AndSmallDigits(y, 1);
    AndSmallDigits(z, 1);
    var r := And(v, PlayerOneMask);
    if Pattern(r) == 21 {
      PatternInjective(r, PlayerOneMask);
    }
  }

  /** The test of a line with O's mask: every square holds 2. */
  lemma MaskTwo(v: int32, x: int, y: int, z: int)
    requires 0 <= x <= 2 && 0 <= y <= 2 && 0 <= z <= 2 && v as int == x + 4 * y + 16 * z
    ensures And(v, PlayerTwoMask) == PlayerTwoMask <==> x == 2 && y == 2 && z == 2
  {
    AndLine(v as int, 42, x, y, z, 2);
    AndSmallDigits(x, 2);
    AndSmallDigits(y, 2);
    AndSmallDigits(z, 2);
    var r := And(v, PlayerTwoMask);
    if Pattern(r) == 42 {
      PatternInjective(r, PlayerTwoMask);
    }
  }

  /** Player `p`'s mask: `0b010101` for X, `0b101010` for O. */
  lemma MaskTest(p: int, mask: int32, v: int32, x: int, y: int, z: int)
    requires 0 <= x <= 2 && 0 <= y <= 2 && 0 <= z <= 2 && v as int == x + 4 * y + 16 * z
    requires (p == 1 && mask == PlayerOneMask) || (p == 2 && mask == PlayerTwoMask)
    ensures And(v, mask) == mask <==> x == p && y == p && z == p
  {
    if p == 1 {
      MaskOne(v, x, y, z);
    } else {
      MaskTwo(v, x, y, z);
    }
  }

  // -------------------------------------------------------------------- game

  /** Player `p` holds squares `a`, `b` and `c`. */
  predicate Line(squares: seq<int>, p: int, a: int, b: int, c: int)
    requires |squares| == 9 && 0 <= a < 9 && 0 <= b < 9 && 0 <= c < 9
  {
    squares[a] == p && squares[b] == p && squares[c] == p
  }

  /** Player `p` holds row `i`. */
  predicate RowLine(squares: seq<int>, p: int, i: int)
    requires |squares| == 9 && 0 <= i < 3
  {
    Line(squares, p, 3 * i, 3 * i + 1, 3 * i + 2)
  }

  /** Player `p` holds column `i`. */
  predicate ColumnLine(squares: seq<int>, p: int, i: int)
    requires |squares| == 9 && 0 <= i < 3
  {
    Line(squares, p, i, i + 3, i + 6)
  }

  /** Player `p` holds a whole row, column or diagonal. */
  predicate HasLine(squares: seq<int>, p: int)
    requires |squares| == 9
  {
    RowLine(squares, p, 0) || RowLine(squares, p, 1) || RowLine(squares, p, 2) ||
    ColumnLine(squares, p, 0) || ColumnLine(squares, p, 1) || ColumnLine(squares, p, 2) ||
    Line(squares, p, 0, 4, 8) || Line(squares, p, 2, 4, 6)
  }

  /** How `Board` writes one square: "X ", "O " or ". ". */
  function Mark(square: int): string {
    if square == 1 then "X " else if square == 2 then "O " else ". "
  }

  /** The line break `Board` writes after the last square of the first two rows. */
  function Break(k: int): string {
    if k == 2 || k == 5 then "\n" else ""
  }

  /** The text of the first `n` squares. */
  function Cells(squares: seq<int>, n: nat): string
    requires |squares| == 9 && n <= 9
  {
    if n == 0 then "" else Cells(squares, n - 1) + Mark(squares[n - 1]) + Break(n - 1)
  }

  /** `Board`'s step: square `3i + j` and, closing the first two rows, a line break. */
  lemma NextCell(squares: seq<int>, i: int, j: int)
    requires |squares| == 9 && 0 <= i < 3 && 0 <= j < 3
    ensures Cells(squares, 3 * i + j + 1) == Cells(squares, 3 * i + j) + Mark(squares[i * 3 + j]) +
      (if j == 2 && i != 2 then "\n" else "")
  {
  }

  /** The number of line breaks before square `k`. */
  function BreaksBefore(k: int): int {
    if k >= 6 then 2 else if k >= 3 then 1 else 0
  }

  /** The text of `n` squares is two characters per square and the breaks between rows. */
  lemma {:induction false} CellsLength(squares: seq<int>, n: nat)
    requires |squares| == 9 && n <= 9
    ensures |Cells(squares, n)| == 2 * n + BreaksBefore(n)
  {
    if n > 0 {
      CellsLength(squares, n - 1);
    }
  }

  /** Square `k` is written at column `2k` plus the breaks before it. */
  lemma {:induction false} CellsAt(squares: seq<int>, n: nat, k: nat)
    requires |squares| == 9 && k < n <= 9
    ensures 2 * k + BreaksBefore(k) < |Cells(squares, n)|
    ensures Cells(squares, n)[2 * k + BreaksBefore(k)] == Mark(squares[k])[0]
  {
    CellsLength(squares, n - 1);
    CellsLength(squares, n);
    if k < n - 1 {
      CellsAt(squares, n - 1, k);
    }
  }

  /** The board shows the nine squares, X, O or a dot, and nothing else decides it. */
  lemma BoardShowsSquares(squares: seq<int>, k: nat)
    requires Marks(squares) && k < 9
    ensures |Cells(squares, 9)| == 20
    ensures Cells(squares, 9)[2 * k + BreaksBefore(k)] == (if squares[k] == 1 then 'X' else if squares[k] == 2 then 'O' else '.')
  {
    CellsLength(squares, 9);
    CellsAt(squares, 9, k);
  }

  /** X has moved as often as O, or once more when O is to move: what a game reached by
      `Fill` alone from the empty board looks like. */
  predicate Balanced(squares: seq<int>, turn: int) {
    multiset(squares)[1] == multiset(squares)[2] + turn
  }

  /** A successful `Fill` keeps the counts balanced. */
  lemma FillBalanced(squares: seq<int>, turn: int, index: nat)
    requires |squares| == 9 && index < 9 && squares[index] == 0 && 0 <= turn <= 1
    requires Balanced(squares, turn)
    ensures Balanced(squares[index := turn + 1], 1 - turn)
  {
    assert multiset(squares[index := turn + 1]) == multiset(squares) - multiset{0} + multiset{turn + 1};
  }

  class Game {
    /** `Value`. */
    var value: int32
    ghost var squares: seq<int>
    ghost var turn: int

    ghost predicate Valid()
      reads this
    {
      Marks(squares) && 0 <= turn <= 1 && value == Pack(squares, turn)
    }

    /** `new TicTacToe()`: every square empty, X to move. */
    constructor ()
      ensures Valid() && squares == [0, 0, 0, 0, 0, 0, 0, 0, 0] && turn == 0
    {
      squares := [0, 0, 0, 0, 0, 0, 0, 0, 0];
      turn := 0;
      value := 0;
      new;
      assert Above(squares, turn, 0) == 0;
    }

    /** The indexer: -1 for an index outside 0..8, else the square's 0, 1 or 2. */
    function Get(index: int): (r: int32)
      requires Valid()
      reads this
      ensures r as int == if 0 <= index <= 8 then squares[index] else -1
    {
      if index > 8 || index < 0 then -1
      else
        ReadSquare(squares, turn, index);
        And(ShiftRight(value, 2 * index), 3)
    }

    /** `Board`: the three rows of "X ", "O " and ". ", a line break after the first two. */
    method Board() returns (board: string)
      requires Valid()
      ensures board == Cells(squares, 9)
    {
      board := "";
      for i := 0 to 3
        invariant board == Cells(squares, 3 * i)
      {
        for j := 0 to 3
          invariant board == Cells(squares, 3 * i + j)
        {
          var square := Get(i * 3 + j);
          NextCell(squares, i, j);
          board := board + (if square == 1 then "X " else if square == 2 then "O " else ". ") + (if j == 2 && i != 2 then "\n" else "");
        }
      }
    }

    /** `Turn`: `Value >> 18`, 0 when X moves and 1 when O moves. */
    function Turn(): (t: int32)
      requires Valid()
      reads this
      ensures t as int == turn
    {
      Shifted(squares, turn, 9);
      ShiftRight(value, 18)
    }

    /** `this[a] + (this[b] << 2) + (this[c] << 4)`: three squares packed. */
    function Packed(a: int, b: int, c: int): (v: int32)
      requires Valid() && 0 <= a < 9 && 0 <= b < 9 && 0 <= c < 9
      reads this
      ensures v as int == squares[a] + 4 * squares[b] + 16 * squares[c]
    {
      var x, y, z := Get(a), ShiftLeft(Get(b), 2), ShiftLeft(Get(c), 4);
      ShiftSmall(Get(b));
      ShiftSmall(Get(c));
      AddExact(x, y);
      AddExact(Add(x, y), z);
      Add(Add(x, y), z)
    }

    /** `(Value >> (6 * i)) & 0b111111`: row `i` packed. */
    function Row(i: int): (v: int32)
      requires Valid() && 0 <= i < 3
      reads this
      ensures v as int == squares[3 * i] + 4 * squares[3 * i + 1] + 16 * squares[3 * i + 2]
    {
      ReadRow(squares, turn, i);
      And(ShiftRight(value, 6 * i), 0x3F)
    }

    /** `Winner`: 1 when X holds a line, else 2 when O holds one, else 0. X's mask is tried
        first, so when both hold a line the result is 1. */
    method Winner() returns (w: int)
      requires Valid()
      ensures w == (if HasLine(squares, 1) then 1 else if HasLine(squares, 2) then 2 else 0)
    {
      var masks := [PlayerOneMask, PlayerTwoMask];
      Owners();
      for m := 0 to 2
        invariant m >= 1 ==> !HasLine(squares, 1)
        invariant m >= 2 ==> !HasLine(squares, 2)
      {
        var mask := masks[m];
        var p := ShiftRight(mask, 4) as int;
        var won := Wins(mask, p);
        if won {
          return p;
        }
      }
      return 0;
    }

    /** `(row & mask) == mask` for row `i`. */
    method RowWon(i: int, mask: int32, p: int) returns (won: bool)
      requires Valid() && 0 <= i < 3
      requires (p == 1 && mask == PlayerOneMask) || (p == 2 && mask == PlayerTwoMask)
      ensures won <==> RowLine(squares, p, i)
    {
      var v := Row(i);
      MaskTest(p, mask, v, squares[3 * i], squares[3 * i + 1], squares[3 * i + 2]);
      won := And(v, mask) == mask;
    }

    /** `(column & mask) == mask` for the line through `a`, `b` and `c`. */
    method LineWon(a: int, b: int, c: int, mask: int32, p: int) returns (won: bool)
      requires Valid() && 0 <= a < 9 && 0 <= b < 9 && 0 <= c < 9
      requires (p == 1 && mask == PlayerOneMask) || (p == 2 && mask == PlayerTwoMask)
      ensures won <==> Line(squares, p, a, b, c)
    {
      var v := Packed(a, b, c);
      MaskTest(p, mask, v, squares[a], squares[b], squares[c]);
      won := And(v, mask) == mask;
    }

    /** The body of `Winner`'s loop for one mask: every row and column, then both
        diagonals, masked and compared with the mask. */
    method Wins(mask: int32, p: int) returns (won: bool)
      requires Valid()
      requires (p == 1 && mask == PlayerOneMask) || (p == 2 && mask == PlayerTwoMask)
      ensures won <==> HasLine(squares, p)
    {
      for i := 0 to 3
        invariant i >= 1 ==> !RowLine(squares, p, 0) && !ColumnLine(squares, p, 0)
        invariant i >= 2 ==> !RowLine(squares, p, 1) && !ColumnLine(squares, p, 1)
        invariant i >= 3 ==> !RowLine(squares, p, 2) && !ColumnLine(squares, p, 2)
      {
        won := RowWon(i, mask, p);
        if won {
          return;
        }
        won := LineWon(i, i + 3, i + 6, mask, p);
        if won {
          return;
        }
      }
      for i := 1 to 3
        invariant !RowLine(squares, p, 0) && !RowLine(squares, p, 1) && !RowLine(squares, p, 2)
        invariant !ColumnLine(squares, p, 0) && !ColumnLine(squares, p, 1) && !ColumnLine(squares, p, 2)
        invariant i >= 2 ==> !Line(squares, p, 0, 4, 8)
        invariant i >= 3 ==> !Line(squares, p, 2, 4, 6)
      {
        assert i == 1 || i == 2;
        var a, c := 4 - 4 / i, 4 + 4 / i;
        assert (i == 1 && a == 0 && c == 8) || (i == 2 && a == 2 && c == 6);
        won := LineWon(a, 4, c, mask, p);
        if won {
          return;
        }
      }
      return false;
    }

    /** `Active`: false once someone has won or no square is empty. */
    method Active() returns (a: bool)
      requires Valid()
      ensures a <==> !HasLine(squares, 1) && !HasLine(squares, 2) && 0 in squares
    {
      var w := Winner();
      if w > 0 {
        return false;
      }
      for i := 0 to 9
        invariant 0 !in squares[..i]
      {
        if Get(i) == 0 {
          return true;
        }
      }
      assert squares[..9] == squares;
      return false;
    }

    /** `Fill(index)`: refuses an index outside 0..8 or a taken square and changes nothing;
        otherwise marks the square for the player to move and passes the turn. */
    method Fill(index: int) returns (r: bool)
      requires Valid()
      modifies this
      ensures Valid()
      ensures r <==> 0 <= index <= 8 && old(squares[index]) == 0
      ensures !r ==> value == old(value) && squares == old(squares) && turn == old(turn)
      ensures r ==> squares == old(squares)[index := old(turn) + 1] && turn == 1 - old(turn)
    {
      if index > 8 || index < 0 {
        return false;
      }
      var square := Get(index);
      if square != 0 {
        return false;
      }
      var mark: int32 := if Turn() == 0 then 1 else 2;
      assert mark as int == turn + 1;
      Placed(squares, turn, index, mark);
      value := Add(value, ShiftLeft(mark, 2 * index));
      squares := squares[index := mark as int];
      TurnBit();
      Passed(squares, turn);
      var step: int32 := if Turn() == 0 then ShiftLeft(1, 18) else -ShiftLeft(1, 18);
      value := Add(value, step);
      turn := 1 - turn;
      return true;
    }
  }

  lemma {:induction false} PlaceAtMost(k: nat, n: nat)
    requires k <= n
    ensures Place(k) <= Place(n)
  {
    if k < n {
      PlaceAtMost(k, n - 1);
    }
  }

  /** `x << n` of a number whose shifted value stays below 2^31 does not wrap. */
  lemma ShiftExact(x: int32, n: int, p: int)
    requires 0 <= n < 32 && 0 <= x && p == Pow2(n) && x as int * p < Two31
    ensures ShiftLeft(x, n) as int == x as int * p
  {
    assert n % 32 == n;
  }

  lemma MulBound(x: int, p: int)
    requires 0 <= x <= 3 && 0 <= p <= 65536
    ensures x * p <= 3 * 65536
  {
  }

  /** `x << (2 * k)` of a small `x` is `x` times 4^k. */
  lemma ShiftDigit(x: int32, k: nat)
    requires 0 <= x <= 3 && k <= 8
    ensures ShiftLeft(x, 2 * k) as int == x as int * Place(k) <= 3 * 65536
  {
    PlaceIsPow2(k);
    PlaceAtMost(k, 8);
    Places();
    MulBound(x as int, Place(k));
    ShiftExact(x, 2 * k, Place(k));
  }

  /** `x << 2` and `x << 4` of a square's value. */
  lemma ShiftSmall(x: int32)
    requires 0 <= x <= 3
    ensures ShiftLeft(x, 2) as int == 4 * x as int && ShiftLeft(x, 4) as int == 16 * x as int
  {
    PlaceIsPow2(1);
    PlaceIsPow2(2);
    assert Place(1) == 4 && Place(2) == 16;
    ShiftExact(x, 2, 4);
    ShiftExact(x, 4, 16);
  }

  /** `mask >> 4` names the player a mask belongs to. */
  lemma Owners()
    ensures ShiftRight(PlayerOneMask, 4) == 1 && ShiftRight(PlayerTwoMask, 4) == 2
  {
    PlaceIsPow2(2);
    assert Place(2) == 16;
    assert 4 % 32 == 4;
  }

  /** `1 << 18` is the turn bit. */
  lemma TurnBit()
    ensures ShiftLeft(1, 18) == 0x4_0000
  {
    PlaceIsPow2(9);
    Places();
    ShiftExact(1, 18, Place(9));
  }

  lemma StillMarks(squares: seq<int>, index: nat, mark: int)
    requires Marks(squares) && index < 9 && 1 <= mark <= 2
    ensures Marks(squares[index := mark])
  {
  }

  /** `Value += mark << (2 * index)` writes the mark into an empty square. */
  lemma Placed(squares: seq<int>, turn: int, index: nat, mark: int32)
    requires Marks(squares) && 0 <= turn <= 1 && index < 9 && squares[index] == 0 && 1 <= mark <= 2
    ensures Marks(squares[index := mark as int])
    ensures Add(Pack(squares, turn), ShiftLeft(mark, 2 * index)) == Pack(squares[index := mark as int], turn)
  {
    StillMarks(squares, index, mark as int);
    Write(squares, turn, index, mark as int);
    ShiftDigit(mark, index);
    AddExact(Pack(squares, turn), ShiftLeft(mark, 2 * index));
  }

  /** Adding or taking away the turn bit flips the turn. */
  lemma Passed(squares: seq<int>, turn: int)
    requires Marks(squares) && 0 <= turn <= 1
    ensures Add(Pack(squares, turn), if turn == 0 then 0x4_0000 else -0x4_0000) == Pack(squares, 1 - turn)
  {
    Toggled(squares, turn);
    AddExact(Pack(squares, turn), if turn == 0 then 0x4_0000 else -0x4_0000);
  }

  lemma Toggled(squares: seq<int>, turn: int)
    requires Marks(squares) && 0 <= turn <= 1
    ensures Pack(squares, 1 - turn) as int == Pack(squares, turn) as int + (if turn == 0 then 0x4_0000 else -0x4_0000)
  {
    Expand(squares, turn);
    Expand(squares, 1 - turn);
  }

  /** A sum that stays in range does not wrap. */
  lemma AddExact(x: int32, y: int32)
    requires -Two31 <= x as int + y as int < Two31
    ensures Add(x, y) as int == x as int + y as int
  {
  }
}
